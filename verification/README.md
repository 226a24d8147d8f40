# Elitra OS, verified in Dafny

Elitra OS is a small x86-64 kernel written in Rust. This project models the parts of it whose correctness is not
visible from any single function, and proves what those parts promise over every input and every run:

- **Physical memory and page tables** (`Bits`, `Pmm`, `Paging`, `Cloning`, `AddressSpaces`): a bitmap frame allocator;
  four-level tables with 2 MB entries that are split on demand; mapping, unmapping and cloning as updates of a
  translation map.
- **Copy-on-write and swap** (`Cow`, `CowKernel`, `Swap`, `SwapDevice`): reference-counted sharing of pages, and pages
  that read the same whether or not they left memory. Both are refinement theorems over all runs of the steps; when a
  step of the kernel is outside the theorem is said exactly.
- **Mapped ranges** (`Chains`, `Vma`, `VmaList`, `Mmap`): a sorted linked list edited in place, as a partial map from
  addresses to flags.
- **Two heaps** (`Tiles`, `Blocks`, `KernelHeap`, `UserHeap`): free lists threaded through the memory they manage. Blocks
  tile the heap, payloads survive, and when everything is freed one block is left.
- **The virtual file system** (`Paths`, `VfsTree`, `Resolve`, `Vfs`, `Pipes`): a pointer tree that stays a tree, path
  resolution through symbolic links, and pipes as queues under any interleaving.
- **FAT32** (`FatTable`, `FatVolume`, `FatDir`): chains, files written all-or-nothing, directories without hidden entries,
  all over a byte image.
- **Network** (`Tcp`, `Checksum`): sequence numbers, receive buffer and retransmissions of a connection over whole runs;
  Internet checksums.
- **Processes** (`Scheduler`, `Signals`): ready queue and sleep list, nested signal handlers.

Code that updates memory step by step is modelled as classes and loops over arrays, maps and sequences; each method is
tied to a function on values, and the laws are lemmas about those functions. Linked lists live in a map from address to
cell, with 0 as the null pointer. `dafny verify dfyconfig.toml` checks everything.

## Where the code does not do what one would expect

These laws are false of the code as written. Each has a lemma with the condition under which it holds, exact
unless the entry says otherwise.

- Splitting a 2 MB entry agrees with looking through it only if its base is 2 MB aligned (`Paging.SplitAgreesIffAligned`).
- The root the kernel boots on names one third-level table in slots 0 and 256, so that mapping a page in the one slot
  maps it in the other (`AddressSpaces.BootMapsTwice`), and in slot 256 of every clone (`AddressSpaces.CloneSeesSource`).
  A mapping that changes anything changes one page alone exactly if no other root entry names its table
  (`AddressSpaces.MapIsLocalIff`).
- Unmapping one page inside a 2 MB entry drops all 512 (`AddressSpaces.UnmapIsLocalIff`).
- Tearing a space down gives back the frames under its supervisor pages too, which every clone of the kernel's root
  holds; that is right exactly if none of them is the kernel's or another space's (`Cow.ExitKeepsIff`,
  `Cow.KernelFrameFreed`).
- The page-fault handler tries copy-on-write only for pages that are not present, where there is nothing to resolve: a
  process that writes to a shared page is sent SIGSEGV (`CowKernel.Kernel.PageFault`). Sharing is resolved only when a
  page is evicted.
- mprotect maps a present page again without its copy-on-write mark, which is right exactly if its frame is not shared
  (`Cow.RemapKeepsIff`).
- Forking copies a page that is already shared, or that is private and read-only, without counting the new reference
  (`Cow.ForkKeepsIff`): a read-only page is freed with the child while the parent maps it
  (`Cow.ReadOnlyForkFreesMappedFrame`), and two forks of one page end with two spaces writing one frame
  (`Cow.ForkTwiceBreaksIsolation`). A write fault without a spare frame has already lowered the count
  (`Cow.FaultKeepsIff`); evicting a shared page frees a frame that is still mapped (`Cow.EvictionFreesMappedFrameIff`).
- Removing the middle of a range needs a spare node, and without one nothing is removed (`Vma.RemovedIsSubtraction`);
  adding a range keeps the list in order only if it overlaps nothing (`Vma.AddedOrderedIff`), which mmap at a given
  address without MAP_FIXED does not check. A fixed mmap that fails for want of a node has already removed what was
  there, and mprotect then reports success (`Mmap.Mmap`, `Mmap.Mprotect`).
- The two highest-numbered clusters of a FAT volume are never allocated (`FatVolume.LastTwoNeverFound`). Writing a file
  reports success although its entry could not be added, and exactly then its chain belongs to no file
  (`FatDir.WriteFile`).
- Removing a directory leaves nodes behind, allocated and out of reach, exactly if a child of it has children
  (`Vfs.FileSystem.RemoveNode`).
- A task that a signal kills while it is being preempted is made ready again and runs on
  (`Scheduler.Scheduler.Reschedule`, `Signals.KillsIff`).
- A path through a symbolic link names another node if the link's target and the rest of the path do not fit 510 bytes
  (`Resolve.CutSpliceMisnames`); it names the right one if every splice on the way fits (`Resolve.ResolvedIsWalk`). This
  goes one way, as a cut path may still name the right node by chance.
- Unlinking a path that ends in "." or ".." frees a node its parent still lists, and no tree is left
  (`Vfs.FileSystem.Unlink`, `Vfs.FreedButLinked`); "x/." is such a path for every file x (`Vfs.DotUnlinkSucceeds`).
- A pipe reader blocked while its slot is recycled reads another pipe's bytes (`Pipes.RecycledSlotMixes`). Readers and
  writers stay with the pipe their descriptor names exactly as long as they move nothing after the slot has been given
  away (`Pipes.ReaderGetsOwnPipeIff`, `Pipes.WriterFillsOwnPipeIff`).
- IPv4 headers check only if the checksum field of the buffer held 0 or 0xFFFF before, since it is not cleared
  (`Checksum.HeaderVerifiesIff`).
- A signal raised while a handler runs is pending after the return exactly if it is not the handler's own
  (`Signals.SurvivesReturnIff`).
- sigreturn puts the signal number into the accumulator instead of what the program had there (`Signals.ReturnResumes`).
- A page that was swapped out comes back without its write and user bits (`Swap.EntryRestoredIff`). The theorems about
  swap speak of page contents.
- TCP offers the peer more than it has room for until three quarters of the buffer are full (`Tcp.OfferFitsIff`), and
  acknowledges what it then cuts off (`Tcp.AckNumbers`, `Tcp.AcknowledgedIsKeptIff`). A window of 0 from the peer is not
  taken over, so the window last told is respected exactly if it was not 0 (`Tcp.OfferRespectedIff`,
  `Tcp.ZeroWindowIgnored`).
- TCP takes payloads in the order they come: the peer's stream is delivered exactly if every segment carries the number
  expected (`Tcp.StreamIff`). What a timeout sends again carries no data (`Tcp.NothingResent`).

## Model

| member | source | states |
|---|---|---|
| Pmm.FrameAllocator.Init | kernel/src/mm/pmm.rs:129-151 | after start-up exactly the frames above the kernel image and the bitmap are free |
| Pmm.FrameAllocator.FindFirstFree | kernel/src/mm/pmm.rs:40-49 | starting at the hint still finds the lowest free frame of all |
| Pmm.FrameAllocator.Alloc | kernel/src/mm/pmm.rs:83-100 | fails only if nothing is free; otherwise the lowest free frame, and it alone, stops being free; the hint stays below every free frame |
| Pmm.FrameAllocator.FreeFrame | kernel/src/mm/pmm.rs:103-116 | the frame, if there is one of that number, becomes free and no other changes, for any argument |
| Pmm.FrameAllocator.FreeCount | kernel/src/mm/pmm.rs:154-165 | the number of free frames |
| Paging.SplitAgreesIffAligned | kernel/src/mm/paging.rs:294-303 | a split gives every page the frame a lookup through the 2 MB entry gave, iff the base is aligned |
| Paging.EmptyRoot | kernel/src/mm/paging.rs:106-114 | a cleared root is a well-formed address space that maps nothing |
| Paging.LinkFreshAll | kernel/src/mm/paging.rs:277-293 | linking a zeroed table changes no translation of any address space and keeps all of them well-formed and separate |
| Paging.LinkSplitAll | kernel/src/mm/paging.rs:294-303 | replacing a 2 MB entry by its split changes no translation of any space |
| Paging.WriteLeafAll | kernel/src/mm/paging.rs:340-348 | a store into a last-level table is seen, in every space, by exactly the addresses looked up at that entry; all spaces stay well-formed |
| Paging.LastTableAlias | kernel/src/mm/paging.rs:270-305 | two addresses of any two spaces are looked up at one entry iff they agree below slot level and their root entries are one or name one table |
| AddressSpaces.Machine.GetPhys | kernel/src/mm/paging.rs:388-406 | the physical address the translation map gives, through 4 KB and 2 MB entries |
| AddressSpaces.Machine.MapPageIn | kernel/src/mm/paging.rs:270-348 | the page, and every page of any space that is looked up at the same entry, reads the new word, and no other page changes; fails exactly if the tables needed are more than the frames left, and then changes no translation; root entries that name a table alone go on doing so |
| AddressSpaces.Machine.MapMany | kernel/src/mm/paging.rs:270-348 | any sequence of mappings below slot 256 leaves all other spaces alone, if those entries name their tables alone, and they still do |
| AddressSpaces.MapIsLocalIff | kernel/src/mm/paging.rs:304-305 | a mapping changes no other page of any space iff it changes nothing or no other root entry names the third-level table |
| AddressSpaces.BootWellFormed | arch/x86_64/boot.asm:143-175 | the tables of the boot code, with slots 0 and 256 naming one, are a well-formed address space |
| AddressSpaces.BootTablesExist | arch/x86_64/boot.asm:143-175 | a memory with those tables |
| AddressSpaces.BootMapsTwice | arch/x86_64/boot.asm:145-157 | on that root a mapping in slot 0 is a mapping in slot 256 as well |
| AddressSpaces.CloneSeesSource | kernel/src/mm/paging.rs:417-419 | what is mapped in slot 0 of such a root shows in slot 256 of its clones |
| AddressSpaces.Machine.UnmapPage | kernel/src/mm/paging.rs:365-385 | exactly the pages, of any space, looked up at the same entry, or through the same 2 MB entry, are unmapped; root entries stay |
| AddressSpaces.UnmapIsLocalIff | kernel/src/mm/paging.rs:365-385 | all other pages of all spaces keep their translation iff the page is not part of a 2 MB entry, and is not mapped or no other root entry names its table |
| AddressSpaces.Machine.CloneKernelDir | kernel/src/mm/paging.rs:414-467 | the new space translates slot 0 and the upper half as the source does, with every 2 MB entry of slot 0 split; no existing space changes; its entries from 256 up are the source's, those below name tables that no other entry of any space names; the copy is complete iff one frame is free for the root, for each table of slot 0 and for each 2 MB entry, and it takes exactly those |
| Cloning.EntryCloned | kernel/src/mm/paging.rs:439-460 | one turn of the copy loop extends the cloned part by one entry and keeps all spaces separate |
| Cow.CopyLeafKeeps | kernel/src/mm/paging.rs:516-529 | copying a writable user page keeps: one writer per frame, counts equal to sharers, free frames unmapped; in states whose spaces hold supervisor pages on any frames |
| Cow.CopyKernelKeeps | kernel/src/mm/paging.rs:526-528 | copying a supervisor page keeps it too, and no process sees a change |
| Cow.FaultKeeps | kernel/src/mm/paging.rs:120-158 | resolving a write fault keeps the same invariant |
| Cow.FaultKeepsIff | kernel/src/mm/paging.rs:138-146 | it does so iff the page is no longer shared or a frame is left |
| Cow.ForkKeepsIff | kernel/src/mm/paging.rs:516-529 | fork into a space without user pages, which may be a clone with the kernel's, keeps the invariant iff every user page of the parent is writable, neither copy-on-write nor read-only |
| Cow.ReadOnlyForkFreesMappedFrame | kernel/src/mm/paging.rs:516-559 | a read-only page that was copied is freed with the child while the parent still maps it |
| Cow.ForkTwiceBreaksIsolation | kernel/src/mm/paging.rs:516-529 | forking one page twice and taking two write faults leaves two spaces writing one frame |
| Cow.EvictionFreesMappedFrameIff | kernel/src/mm/swap.rs:170-208 | evicting a copy-on-write page frees a frame still mapped elsewhere iff the page was shared |
| Cow.DropKeeps | kernel/src/mm/paging.rs:548-559 | tearing down a space without supervisor pages, page by page, keeps the invariant and takes exactly its pages from view |
| Cow.ExitKeepsIff | kernel/src/mm/paging.rs:536-573 | tearing down any space keeps the invariant iff none of its supervisor pages is on a frame of the kernel or of a user page of another space |
| Cow.KernelFrameFreed | kernel/src/mm/paging.rs:548-559 | a space with one supervisor page on a kernel frame: its teardown makes that frame free |
| Cow.RemapKeepsIff | kernel/src/process/syscalls.rs:778-793 | the new protection of a present page keeps the invariant iff it is a user page whose frame is not shared |
| Cow.StepRefines | kernel/src/mm/paging.rs:120-158 | each operation on shared pages is the same operation on private copies |
| Cow.SharingIsInvisible | kernel/src/mm/paging.rs:470-573 | over every run of clones, new pages, complete and partial forks, resolved sharing, stores and harmless exits, each process reads what it would with private copies |
| Cow.AllFramesComeBack | kernel/src/mm/paging.rs:536-573 | after every run that ends with no user page mapped, exactly the frames that are not reserved are free, and if none was mapped at its start, exactly those free then |
| CowKernel.Kernel.CowRefInc | kernel/src/mm/cow.rs:33-46 | the frame's count goes up by one, up to its 16-bit limit |
| CowKernel.Kernel.CowRefDec | kernel/src/mm/cow.rs:49-63 | the old count is returned, the new one is one less or still zero |
| CowKernel.Kernel.CopyUserPages | kernel/src/mm/paging.rs:470-533 | the in-place loop over the user pages, which may stop early for want of a table, has the effect of the fork that Cow.ForkKeepsIff and Cow.SharingIsInvisible are about |
| CowKernel.Kernel.CowResolve | kernel/src/mm/paging.rs:120-198 | succeeds iff the page is copy-on-write and is unshared or a frame is left; no space can tell |
| CowKernel.Kernel.FreeUserPages | kernel/src/mm/paging.rs:536-573 | the loop drops exactly the leaves of one space, supervisor pages included, and keeps the invariant iff Cow.ExitKeepsIff says so |
| CowKernel.Kernel.PageFault | kernel/src/mm/paging.rs:598-628 | nothing is ever resolved: a fault at a present page goes to the signal, one at an absent page to swap and lazy allocation, and neither changes a page |
| Swap.EntryRestoredIff | kernel/src/mm/swap.rs:201-246 | the entry that comes back is the one that left, but for the frame, iff it had none of the bits the trip drops |
| Swap.EvictKeeps | kernel/src/mm/swap.rs:147-211 | eviction keeps one slot per swapped page and one page per frame, and no page changes its contents |
| Swap.SwapInKeeps | kernel/src/mm/swap.rs:213-250 | swapping in does too |
| Swap.SwappingIsInvisible | kernel/src/mm/swap.rs:147-274 | over every interleaving of evictions, swap-ins and stores each page reads as if only the stores had happened |
| Swap.SlotsAreNamedOnce | kernel/src/mm/swap.rs:85-103 | a slot is in use iff a swapped page names it, and then exactly one does |
| SwapDevice.Slots.Alloc | kernel/src/mm/swap.rs:85-95 | the lowest slot not in use, and no other changes; none only if all are taken; bit map and flags go on agreeing |
| SwapDevice.Slots.Free | kernel/src/mm/swap.rs:97-103 | the slot is free again and no other changes |
| SwapDevice.Swapper.EvictPage | kernel/src/mm/swap.rs:147-211 | succeeds iff the page is there, a slot is free, a buffer was had and the disk wrote; then it is the eviction of the model, else nothing changed |
| SwapDevice.Swapper.HandleFault | kernel/src/mm/swap.rs:213-274 | succeeds iff the entry is a swapped one, a frame is free and the disk read; no page changes its contents either way |
| Vma.RemovedIsSubtraction | kernel/src/mm/vma.rs:65-115 | on an ordered list removal takes away exactly the addresses of the range, iff no split is needed or its node can be had |
| Vma.CountIsMet | kernel/src/mm/vma.rs:65-115 | on an ordered list the count a removal reports is the number of ranges that meet the removed one |
| Vma.AddedOrderedIff | kernel/src/mm/vma.rs:22-62 | the list stays ordered iff the new range meets no other |
| Vma.AddedLookup | kernel/src/mm/vma.rs:22-62 | addresses of the new range read its flags, all others what they read before |
| Vma.Override | kernel/src/mm/vma.rs:22-115 | removing a range and adding it again changes the flags of exactly its addresses |
| VmaList.List.Find | kernel/src/mm/vma.rs:10-19 | the node whose range holds the address, null iff there is none |
| VmaList.List.HasOverlap | kernel/src/mm/vma.rs:129-145 | true iff some range meets the given one |
| VmaList.List.Add | kernel/src/mm/vma.rs:22-62 | the linked list becomes the sequence with the range inserted |
| VmaList.List.Remove | kernel/src/mm/vma.rs:65-115 | the linked list becomes the sequence with the range removed, nodes unlinked, cut or split in place; the count is the one Vma.CountIsMet is about |
| Mmap.SearchFree | kernel/src/process/syscalls.rs:650-659 | ends, at the first multiple of 1 MB above the base where the length fits |
| Vma.OverrideIff | kernel/src/mm/vma.rs:22-115 | if the node for a split may be missing, it does so iff none is needed or it is there |
| Mmap.Mmap | kernel/src/process/syscalls.rs:629-676 | without an address exactly the first free range is mapped; with MAP_FIXED exactly the given range is overridden, iff no split is needed or its node is there; otherwise the list stays ordered iff nothing was mapped there; fails iff the length is 0 or the allocator has no node once the removal is done, and what is left then |
| Mmap.Mprotect | kernel/src/process/syscalls.rs:748-799 | fails iff the length is 0 or the start unmapped; else exactly the aligned range is overridden, iff no split is needed or its node is there; without a node for the range it is gone |
| Tiles.MergeLive | kernel/src/mm/heap.rs:74-84 | merging changes no block in use |
| Tiles.MergeAllFree | kernel/src/mm/heap.rs:74-84 | merging all-free blocks leaves one block, the whole heap |
| Tiles.ReturnedKeeps | userspace/src/rt.rs:352-371 | one fusion forward and one back are enough: no two neighbours are free afterwards, and exactly one block left use |
| KernelHeap.Heap.FindBlock | kernel/src/mm/heap.rs:49-60 | the first free block that is large enough |
| KernelHeap.Heap.SplitBlock | kernel/src/mm/heap.rs:62-72 | a block is cut in two if the rest can hold a header and 16 bytes; its first bytes and all other payloads are kept |
| KernelHeap.Heap.MergeAdjacent | kernel/src/mm/heap.rs:74-84 | all runs of free neighbours are merged in one pass; payloads in use are kept |
| KernelHeap.Heap.Alloc | kernel/src/mm/heap.rs:95-113 | null iff no free block is large enough; else one new block in use, disjoint from all others, whose payloads are untouched |
| KernelHeap.Heap.Free | kernel/src/mm/heap.rs:116-127 | exactly this block leaves use, no two neighbours are free, and after the last one the heap is its initial single block |
| KernelHeap.Heap.Realloc | kernel/src/mm/heap.rs:130-153 | a null pointer allocates and size 0 frees; otherwise null iff the block is too small and no free block is large enough; a block that is large enough stays where it is; the common prefix survives, no other payload changes, and a failure changes nothing |
| UserHeap.Heap.Init | userspace/src/rt.rs:297-309 | one free block over the whole heap |
| UserHeap.Heap.Malloc | userspace/src/rt.rs:312-349 | null iff the size is 0 or no free block is large enough; else one new block in use and all payloads untouched |
| UserHeap.Heap.ExtendHeap | userspace/src/rt.rs:284-294 | never has room once the heap is initialised |
| UserHeap.Heap.Free | userspace/src/rt.rs:352-371 | exactly this block leaves use, neighbours stay fused, a second free changes nothing, and after the last one the heap is one block |
| UserHeap.Heap.Realloc | userspace/src/rt.rs:374-386 | a null pointer allocates and size 0 frees; otherwise null iff the block is too small and no free block is large enough; same pointer if the block is large enough, else the whole old payload moves; a failure changes nothing |
| Paths.NextSegment | kernel/src/fs/vfs.rs:163-180 | the first name of a path and the rest, or that it is longer than 63 characters |
| Paths.ComponentsConcat | kernel/src/fs/vfs.rs:188-204 | putting a link's target in front of the rest of a path puts its names in front |
| Resolve.ResolvedIsWalk | kernel/src/fs/vfs.rs:156-211 | reading the string with links spliced in is the walk over the names, whatever its length, as long as no splice on the way is cut |
| Resolve.CutSpliceMisnames | kernel/src/fs/vfs.rs:188-204 | in every tree with a link to "." beside a node x, a path that names x is resolved to the root since its splice is cut |
| Resolve.SmallTreeMisnamed | kernel/src/fs/vfs.rs:188-204 | such a tree of three nodes, with that path |
| VfsTree.AllUnderTop | kernel/src/fs/vfs.rs:147-150 | from every node of the tree the parents lead to the root |
| VfsTree.Detached | kernel/src/fs/vfs.rs:779-786 | taking a node out of its parent's list splits the tree in two trees with the same nodes |
| VfsTree.Attached | kernel/src/fs/vfs.rs:147-150 | adding a separate tree to a node makes one tree of the two |
| Vfs.FileSystem.Init | kernel/src/fs/vfs.rs:295-301 | a tree of the root alone |
| Vfs.FileSystem.FindChild | kernel/src/fs/vfs.rs:127-145 | the node itself for ".", its parent for "..", else the first child of that name or null |
| Vfs.FileSystem.ResolveInner | kernel/src/fs/vfs.rs:156-211 | ends whatever the links point at, with null or a node of the tree |
| Vfs.FileSystem.ResolvePath | kernel/src/fs/vfs.rs:304-309 | resolution from the root; the root itself for an empty path |
| Vfs.FileSystem.ResolveParent | kernel/src/fs/vfs.rs:213-229 | what the first 255 characters name before their last slash |
| Vfs.FileSystem.CreateDir | kernel/src/fs/vfs.rs:312-337 | exactly when it succeeds; then the tree has one more node, in front of its parent's children and found under its name |
| Vfs.FileSystem.CreateFile | kernel/src/fs/vfs.rs:340-369 | the same for a file, whose name may be taken already |
| Vfs.FileSystem.CreateDevice | kernel/src/fs/vfs.rs:372-400 | the same for a device |
| Vfs.FileSystem.MakeSymlink | kernel/src/fs/vfs.rs:691-720 | the same for a link, with the first 255 characters of its target |
| Vfs.FileSystem.RemoveNode | kernel/src/fs/vfs.rs:403-440 | the node and everything under it leave the tree, which stays a tree; exactly the node and its children are freed, so nothing is left behind iff no child has children |
| Vfs.FileSystem.Unlink | kernel/src/fs/vfs.rs:656-688 | with an ordinary last name the node leaves the tree, which stays a tree; with "." or ".." no tree is left |
| Vfs.FreedButLinked | kernel/src/fs/vfs.rs:676-686 | after freeing a node its parent still lists, memory holds no tree under the root |
| Vfs.DotUnlinkSucceeds | kernel/src/fs/vfs.rs:656-688 | in every tree whose root holds a file x, the path "x/." meets the conditions of such an unlink |
| Vfs.SmallTreeDot | kernel/src/fs/vfs.rs:656-688 | such a tree of three nodes |
| Vfs.FileSystem.Rmdir | kernel/src/fs/vfs.rs:746-760 | succeeds iff it names an empty directory other than the root that may be removed; exactly that node is gone |
| Vfs.FileSystem.Rename | kernel/src/fs/vfs.rs:763-804 | the same nodes are in the tree on success and on failure; on success the node has its new name and parent, which is never under the node itself |
| Pipes.PipesAreQueues | kernel/src/fs/vfs.rs:1026-1136 | over any interleaving of transfers, closes and creations, bytes read are a prefix of bytes written and at most 4095 are in between, in order |
| Pipes.DescriptorsNeverMove | kernel/src/fs/vfs.rs:245-258 | over any run a descriptor reaches the pipe it was made for or nothing, and once nothing, nothing for ever |
| Pipes.SlotsOutliveNoEnd | kernel/src/fs/vfs.rs:1112-1136 | over any run a slot is in use exactly as long as an end of its pipe is open |
| Pipes.SoleReader | kernel/src/fs/vfs.rs:1057-1081 | a reader alone on a slot gets exactly the next bytes written to its pipe, whatever is closed meanwhile, as long as the slot is not given to a new pipe |
| Pipes.SoleWriter | kernel/src/fs/vfs.rs:1084-1109 | a writer alone on a slot adds exactly the bytes it reports, under the same guard |
| Pipes.ReaderGetsOwnPipeIff | kernel/src/fs/vfs.rs:1057-1081 | over any trace with no other reader, what a call hands out are the next bytes of the pipe its descriptor named iff nothing is taken after the slot was recycled |
| Pipes.WriterFillsOwnPipeIff | kernel/src/fs/vfs.rs:1084-1109 | the same for what a call puts in |
| Pipes.GoodDescriptorLived | kernel/src/fs/vfs.rs:245-258 | a descriptor that is good at the end of a call shows that its slot was not recycled during it |
| Pipes.RecycledSlotMixes | kernel/src/fs/vfs.rs:1062-1079 | without that guard a blocked reader gets the bytes of a later pipe |
| Pipes.PipeTable.CreatePipe | kernel/src/fs/vfs.rs:1026-1054 | fails iff all slots are used; else two new descriptors for one empty pipe |
| Pipes.PipeTable.ClosePipe | kernel/src/fs/vfs.rs:1112-1136 | one end of the one pipe with the descriptor is closed, and its slot given back with the last end; an unknown descriptor changes nothing |
| Pipes.PipeTable.Read | kernel/src/fs/vfs.rs:1057-1081 | ends whatever others do; what it took out, and that a short read means empty and closed or 201 yields in a row |
| Pipes.PipeTable.Write | kernel/src/fs/vfs.rs:1084-1109 | ends whatever others do; what it put in, and that a short write means full and closed or 201 yields in a row |
| FatVolume.WithEntryIs | kernel/src/fs/fat32.rs:147-156 | writing an entry through its bytes changes that 28-bit entry alone and keeps the four reserved bits |
| FatVolume.Volume.GetEntry | kernel/src/fs/fat32.rs:139-144 | the entry of the table the bytes spell |
| FatVolume.Volume.SetEntry | kernel/src/fs/fat32.rs:147-156 | the table changes at one entry; no other byte and no reserved bit changes |
| FatVolume.Volume.AllocCluster | kernel/src/fs/fat32.rs:159-167 | the lowest free cluster but the last two becomes a chain of one and no byte outside the table changes; 0 iff there is none, and then no byte changes |
| FatVolume.LastTwoNeverFound | kernel/src/fs/fat32.rs:117-167 | the search sees every free cluster iff neither of the two highest-numbered ones is free |
| FatVolume.Volume.FreeChain | kernel/src/fs/fat32.rs:175-184 | ends even on circular links and frees exactly what the start reaches |
| FatTable.ReachesStep | kernel/src/fs/fat32.rs:177-182 | what a cluster reaches is itself and what its link reaches once its own entry is freed |
| FatTable.ChainFreed | kernel/src/fs/fat32.rs:175-184 | freeing a chain frees its clusters and no others |
| FatTable.OtherChainKept | kernel/src/fs/fat32.rs:175-184 | a chain without common clusters survives |
| FatTable.Restored | kernel/src/fs/fat32.rs:368-372 | freeing a chain built from free clusters gives back the table there was before |
| FatVolume.Volume.AllocChain | kernel/src/fs/fat32.rs:363-378 | links exactly as many clusters as asked for, all free before and none of the last two, or leaves every byte as it was; succeeds iff that many are there |
| FatVolume.Volume.WriteData | kernel/src/fs/fat32.rs:380-392 | the chain read cluster by cluster starts with the data; no byte outside its clusters changes |
| FatVolume.Volume.WriteNew | kernel/src/fs/fat32.rs:360-392 | all or nothing: a chain of ceil(size / cluster) free clusters with the data, every byte outside the table and those clusters and every reserved bit as before; or every byte as before; succeeds iff the search can find that many |
| FatDir.AddKeeps | kernel/src/fs/fat32.rs:252-287 | adding a live entry hides none behind an end marker and adds just that one, also when the directory grows |
| FatDir.RemoveKeeps | kernel/src/fs/fat32.rs:291-317 | removing hides none and takes away just the entry found |
| FatDir.NothingHidden | kernel/src/fs/fat32.rs:220-247 | a search finds an entry iff a live one matches |
| FatDir.RunsKeepAccount | kernel/src/fs/fat32.rs:252-317 | over any run of additions and removals no live entry is hidden, and the live ones are those added less those removed |
| FatDir.FindDirEntry | kernel/src/fs/fat32.rs:220-247 | the loops over clusters, sectors and slots return the first matching live entry before the end marker, read from the image |
| FatDir.AddDirEntry | kernel/src/fs/fat32.rs:252-287 | the directory gets the entry in its first vacant slot or in a new cleared cluster; fails iff one is needed and none is free, and then no byte changes; otherwise none outside the table and the directory |
| FatDir.RemoveEntry | kernel/src/fs/fat32.rs:291-317 | the entry found is marked, nothing else changes |
| FatDir.WriteFile | kernel/src/fs/fat32.rs:343-401 | the whole call for a new name: success iff the clusters for the data are there, the file in its chain, and listed iff a slot is vacant or one cluster more is left; with a failure no byte changes |
| Tcp.SequenceNumbers | kernel/src/net/tcp.rs:106-493 | over every run after one SYN: next number = ISN + 1 + bytes sent + FINs sent modulo 2^32, at most one FIN, no data after it, packets numbered without gap or overlap |
| Tcp.ReceiveBuffer | kernel/src/net/tcp.rs:203-213 | the buffer is the first 4096 bytes of all payloads that arrived while established |
| Tcp.AcknowledgedIsKeptIff | kernel/src/net/tcp.rs:203-213 | all payload acknowledged so far is in the buffer iff it is at most 4096 bytes |
| Tcp.StreamIff | kernel/src/net/tcp.rs:203-213 | over every run the bytes delivered are the peer's stream, each once and in order, iff every segment with data carries the number expected next |
| Tcp.DeliveredIsStream | kernel/src/net/tcp.rs:203-213 | the bytes delivered are the stream's at the places the segments number |
| Tcp.AckNumbers | kernel/src/net/tcp.rs:213-345 | over every run after the handshake each packet acknowledges exactly the payload bytes and FINs that have arrived |
| Tcp.OfferFitsIff | kernel/src/net/tcp.rs:90-98 | over every run a packet offers no more than is free iff more than three quarters of the buffer are full by then and it answers neither a SYN nor a FIN |
| Tcp.AtMostFive | kernel/src/net/tcp.rs:442-493 | at most five retransmissions without an acknowledgement; the timeout stays between 1000 and 30000 |
| Tcp.GivesUpIff | kernel/src/net/tcp.rs:442-493 | with nothing but timeouts there are exactly as many retransmissions as are left of five, and the connection is closed iff one more timeout follows |
| Tcp.NothingResent | kernel/src/net/tcp.rs:474-491 | over every run what a timeout sends carries no data, at the oldest number not acknowledged |
| Tcp.WindowRespected | kernel/src/net/tcp.rs:382-389 | after sending, no more is in flight than the window the connection keeps |
| Tcp.WindowOverRun | kernel/src/net/tcp.rs:192-201 | over every run that window is the last one other than 0 the peer told |
| Tcp.OfferRespectedIff | kernel/src/net/tcp.rs:192-201 | after any run what is in flight is within the window the peer told last iff that was not 0 |
| Tcp.ZeroWindowIgnored | kernel/src/net/tcp.rs:192-201 | a peer that has just closed its window is sent data all the same |
| Tcp.TcpConnection.BuildSyn | kernel/src/net/tcp.rs:106-130 | only a closed connection opens; the SYN takes one number, so the run theorems start at ISN + 1 |
| Tcp.TcpConnection.ProcessSegment | kernel/src/net/tcp.rs:133-374 | in all eleven states the object with its 4096-byte array takes the step the run theorems are about, and answers with its packet |
| Tcp.TcpConnection.SendData | kernel/src/net/tcp.rs:377-412 | as much of the data as the window allows, or nothing sent and nothing changed |
| Tcp.TcpConnection.CloseConnection | kernel/src/net/tcp.rs:415-438 | a FIN from an open connection, from any other state none |
| Tcp.TcpConnection.CheckRetransmit | kernel/src/net/tcp.rs:442-493 | nothing before the timeout or with nothing in flight; otherwise the counted step of the retransmission theorem |
| Checksum.FoldIs | kernel/src/net/icmp.rs:29-31 | folding is the sum modulo 65535, with 65535 for multiples and 0 only for 0 |
| Checksum.IcmpChecksum | kernel/src/net/icmp.rs:18-33 | 65535 minus the folded sum of the words modulo 2^32, for even and odd lengths |
| Checksum.EchoVerifies | kernel/src/net/icmp.rs:49-101 | every built message of any length checks to 0 |
| Checksum.BuildEcho | kernel/src/net/icmp.rs:49-101 | 0 and nothing written iff the buffer is too small; else the message, which checks to 0 |
| Checksum.SwappedSum | kernel/src/net/ipv4.rs:62-75 | swapping the bytes of all words multiplies the sum by 256 modulo 65535 |
| Checksum.HeaderVerifiesIff | kernel/src/net/ipv4.rs:62-78 | the header checks in network order iff the checksum field held 0 or 0xFFFF before |
| Checksum.BuildIpv4 | kernel/src/net/ipv4.rs:40-82 | 0 and nothing written iff the buffer is too small; else header and payload, and that same condition |
| Scheduler.DueSplits | kernel/src/process/scheduler.rs:343-375 | waking loses and duplicates no task and wakes exactly those whose time has come |
| Scheduler.MovesUp | kernel/src/process/scheduler.rs:308-332 | a waiting task moves up one place with every dispatch, whatever is enqueued meanwhile |
| Scheduler.RunsInTurn | kernel/src/process/scheduler.rs:1477-1634 | whoever waits at position k runs with exactly the (k+1)-th preempt, yield or exit |
| Scheduler.Scheduler.Enqueue | kernel/src/process/scheduler.rs:308-318 | the linked queue gains one task at its end |
| Scheduler.Scheduler.Dequeue | kernel/src/process/scheduler.rs:320-332 | the linked queue loses its first task, null iff empty |
| Scheduler.Scheduler.SleepEnqueue | kernel/src/process/scheduler.rs:334-341 | the sleep list gains one task in front and the count follows |
| Scheduler.Scheduler.SleepWakeAll | kernel/src/process/scheduler.rs:343-375 | expired tasks go to the end of the queue, in order, the others stay, in order; count and task states follow |
| Scheduler.Scheduler.Reschedule | kernel/src/process/scheduler.rs:1522-1634 | woken tasks and the running one join the end, the first runs; states follow; the idle task is never queued; signals are delivered before, and a task they kill is queued all the same unless it is the idle one |
| Scheduler.Scheduler.Exit | kernel/src/process/scheduler.rs:1477-1517 | the first task runs, the idle one if nobody waits; called by the idle task it changes nothing |
| Signals.DeliveredIs | kernel/src/process/scheduler.rs:1409-1472 | ignored signals below the first one that is handled or fatal are dropped, that one is acted on, later ones stay pending |
| Signals.KillsIff | kernel/src/process/scheduler.rs:1409-1472 | delivery kills a live task iff the first decisive signal has no handler or no room for its frame |
| Signals.ReturnResumes | kernel/src/process/scheduler.rs:1363-1406 | with its frame intact a return succeeds iff the interrupted context was acceptable, and resumes it but for flag bits 8 and 9 and the accumulator |
| Signals.HandlersNest | kernel/src/process/scheduler.rs:1363-1472 | whatever is delivered and returned from inside a handler, its own return resumes exactly what it interrupted |
| Signals.SurvivesReturnIff | kernel/src/process/scheduler.rs:1401-1403 | a signal is pending after a return iff it was before and is not the one the handler was for |
| Signals.RaisedDuringHandler | kernel/src/process/scheduler.rs:1363-1472 | of the signals raised between a delivery and its return all but the delivered one are pending afterwards |
| Signals.Process.DeliverSignals | kernel/src/process/scheduler.rs:1409-1472 | the loop over the 31 signals has the effect Signals.DeliveredIs characterises on task, registers and user memory |
| Signals.Process.SigReturn | kernel/src/process/scheduler.rs:1363-1406 | the four range checks let through exactly the contexts Signals.ReturnResumes is about; a refusal changes nothing |

## Left out

- Interrupts, locking and more than one processor: each operation runs by itself, except that pipe calls yield to any steps of others.
- TLB flushes, CR3 and context switching: translations are what the tables say.
- Identity and MMIO mapping at start-up, `krust_paging_free_page_tables` and lazy allocation on page faults.
- munmap and brk: they use the range list as mmap and mprotect do.
- CowKernel.Kernel.CopyUserPages: the branch for 2 MB entries (kernel/src/mm/paging.rs:491-507) is not modelled, as no clone holds one below slot 256, and the frames of the child's new tables are not taken from the free frames; where the loop stops for want of one is a parameter.
- CowKernel.Kernel.FreeUserPages: the frames of the tables and of the root are not given back.
- SwapDevice.Swapper.EvictPage: copy-on-write pages are excluded; what the code does with one is Cow.EvictionFreesMappedFrameIff.
- Mmap.Mmap: address arithmetic is taken not to wrap. A node to split with is asked for before the removal rather than during it, which is the same on an ordered list.
- Mmap.Mprotect: the same; it is about the range list, and what happens to present pages is Cow.RemapKeepsIff.
- UserHeap.Heap.Malloc: sizes are unbounded numbers; a size within 23 of 2^64 would wrap in the rounding. Blocks are below 4 GB as their 32-bit size field demands.
- The heaps' locks and the heap's growth through paging.
- File contents, descriptor tables, permissions beyond an arbitrary predicate, stat, chmod and readlink in the virtual file system.
- Resolve.ResolvedIsWalk: goes one way; what a cut splice names depends on the rest of the tree.
- Pipes.PipeTable.CreatePipe: the descriptor counter is an unbounded number; the code's wraps after 2^31.
- FAT32 name matching and short names (an arbitrary predicate), write-back callbacks, create_dir, rename and overwriting an existing file, which keeps its old directory entry.
- FatDir.AddDirEntry: the directory's clusters form a chain; on a circular one the code's scan does not end. The same holds for finding and removing.
- FatVolume.Volume.FreeChain: links lead to clusters of the volume, numbered 2 to total + 1.
- FatVolume.Volume.WriteNew: the data is any sequence; sizes within a cluster of 2^32 would wrap in the count of clusters.
- TCP and UDP wire encoding and checksums, listening sockets, DNS, DHCP and the socket table.
- Tcp.TcpConnection.ProcessSegment: header flags are five booleans; address and port of the packet are not modelled.
- FPU state, kernel stacks, fork of tasks and reparenting.
- Scheduler.Scheduler.Reschedule: preempt and yield tell the idle task apart by different fields; on one processor they agree. Tick counters do not wrap.
- Signals.Process.DeliverSignals: user memory is addressed in 64-bit words that do not overlap.
