# RivOS: a verified model of its algorithms

RivOS is a small 32-bit x86 kernel with its userspace tools. This project models the algorithms in it
that carry invariants and proves what they keep, over every input and over whole runs:

* the **RivFs** image: the builder, the reference reader and the kernel's driver, from a directory tree
  to bytes and back;
* **memory**: the frame bitmap, two-level paging with shared tables, process stacks, `mmap` and the ELF loader;
* the **kernel heap**, as a list of blocks and as the bytes that list is made of;
* **pre-emption**: the timer interrupt's path through stubs, kernel, scheduler and back;
* the **FAT32** driver's cluster chains, directories and paths;
* the **RAP** text of callable functions with its printer and its two parsers, and the shader language's
  **Lisp** reader and integer sine.

A method in these files is a piece of the program that changes state in place; its contract ties it to a
function on values, and lemmas say what that function means. Machine words are integers with their range
in the type, and every place where the program truncates or wraps says so. A read through a pointer that
leaves its text, or a kernel panic, is an explicit outcome (`None`, a false `ok`, `KernelPanic`, `NullRead`).

`dafny verify dfyconfig.toml` checks the whole project.

| files | what they model |
|---|---|
| `Bytes`, `Text`, `Numerals` | words and little-endian bytes, scanning of C strings, decimal numerals |
| `FileTree`, `RivLayout`, `GenFs`, `RivFsData`, `RivFsDriver`, `RivFsWhole` | trees and path lookup, the image format, its builder, its two readers, and all of it together |
| `Frames`, `Paging`, `PageTables`, `FreshMapping`, `MmapRuns`, `KernelMemory`, `ProcessStack`, `ElfLoad`, `ElfSpace`, `ElfShown`, `ElfRuns`, `Elf` | frames, page tables as values and as words in memory, the mapping loop shared by `mmap` and the loader, processes, stacks, loading |
| `Heap`, `KernelHeap` | the allocator on a list of blocks, and in memory |
| `Preemption`, `StackSharing` | interrupts, the scheduler and context switches, and which process's stack they write on |
| `Fat32`, `FatNames`, `FatDirs`, `FatDriver`, `FatDisk` | chains, 8.3 names and paths, directories, the driver, and its answers in terms of the disk |
| `Rap`, `RapPrinter`, `RapReaders`, `RapKernelList` | the text form, its printer, its parsers, the kernel's own list |
| `LispSyntax`, `LispReader`, `Sine` | tokens and expressions, the reader, the sine |
| `Formats` | the formats above written out in bytes and characters |

## What the proofs found

Properties one would expect but that the code does not have, each with its exact condition below:

* The kernel's `open` and the reference `find` agree on a path exactly when it has no component, or is
  absolute and either has one component or is written without doubled or trailing separators
  (`FileTree.OpenAgreesExactly`).
* The driver trusts 16-bit counts, so it sees a tree's first `count mod 65536` entries: the whole tree exactly when
  every directory is small (`FileTree.CountedViewIsWhole`, and `FileTree.FullDirectoryHidden` for one that is not). `getDirIt` moreover uses the root's count in every
  directory (`FileTree.BoundedLookupExactly`, `FileTree.StaleCountHides`), and a handle from `dirItGetNextFile` is
  usable exactly where the image starts at address 0.
* The heap's end check is done in 32 bits: a request that no block fits, that the check lets pass and that wraps
  around is accepted and puts a block outside the heap. All live payloads of a run lie in the heap exactly when none
  of its calls is such a request (`Heap.AllocKeepsGood`, `Heap.LiveInsideExactly`, `Heap.WrappedRequestAccepted`).
* A successful `mmap` covers the bytes asked for exactly when they are at most 0xFFFFF000; a larger size reports
  success and maps nothing (`MmapRuns.MmapCall`, `MmapRuns.HugeSizeMapsNothing`).
* A process that is created but not `run` executes on its creator's stack frames: over any run from boot two
  processes share their stack exactly when they came to at a creation and neither has been run since
  (`Paging.StackSharedExactly`), and then the words an interrupt of the one pushes replace the other's
  (`StackSharing.SharedStackLosesWords`; `StackSharing.SharedStackRun` is such a run). `run` gives a private stack of as many pages as there are free frames, up to
  sixteen; the pages that get none all lie on frame 0 (`ProcessStack.RunGivesPrivateStack`,
  `ProcessStack.StackPagesFallTogether`), so that different addresses are different words exactly when at least
  fifteen frames were free (`StackSharing.StackWordsApartExactly`).
* A load does not show all of every segment: over all memories before it, a segment is shown whole exactly when on
  the pages of its bytes the last segment there has the same bytes (`ElfSpace.ShownExactly`,
  `ElfShown.LaterSegmentHides`).
* The scheduler alternates between the first two processes: any other that is not running never will
  (`Preemption.ThirdNeverRuns`).
* Between its assignments to `getpid` and `procList` the scheduler reads through a null pointer on every
  tick (`Preemption.Machine.TimerInterrupt`), and no start-up gets round that window (`Preemption.WindowOnTheWay`).
* The FAT driver's search of a directory whose cluster chain never ends returns exactly when an end mark or the name
  stands somewhere along it (`FatDirs.SearchableExactly`; on the volume of `FatDirs.EndlessSearch` it does not).
* The shader language's sine counts in thousandths but never exceeds 786, and is 748 at a quarter of a turn: the
  parabola in it lacks a factor of 4 / PI (`Sine.SineBounds`, `Sine.SineNear`, `Sine.SineValues`).
* The kernel's RAP parser recovers a printed list exactly when it is not empty and every function has a
  parameter; it never reads back the list the kernel itself publishes (`Rap.KernelRecoversExactly`,
  `RapKernelList.SchedulerReadsKernelList`).

Where code and documentation disagree the model follows the code: `docs/rivfs.md` gives `f.len + f.filesize` as the
distance to the next file, leaving out both length fields, and a 4-byte end marker where the builder
writes 8 bytes behind a file list; `docs/rap.md` calls addresses unsigned and shows `( )` for no parameters, where the
kernel's parser uses the signed `stoi` and misreads that form.

## Model

| member | source | states |
|---|---|---|
| `FileTree.CountedViewIsWhole` | src/drivers/fs/rivfs/rivfs.hpp:173-225 | trusting 16-bit counts hides nothing of a tree if and only if every directory has fewer than 65536 files and subdirectories |
| `FileTree.FullDirectoryHidden` | src/drivers/fs/rivfs/rivfs.hpp:331-367 | a directory of 65536 files seems empty through its count, and a file that lookup finds in it is not opened |
| `FileTree.CompsOfJoin` | initramfs/genfs/rivfsdata.py:228-243 | splitting a path at separators undoes joining its components |
| `Formats.PathBytes` | initramfs/genfs/rivfsdata.py:228-243 | the components of /a//b |
| `FileTree.FindInDirMeans` | src/drivers/fs/rivfs/rivfs.hpp:155-271 | below the first component the driver resolves the rest of a path only in its canonical spelling, and then to what component-wise lookup finds |
| `FileTree.OpenMeans` | src/drivers/fs/rivfs/rivfs.hpp:273-426 | for every tree and every path string, what `open` finds: component lookup on absolute paths with one component or in canonical form, nothing on any other |
| `FileTree.OpenAgreesExactly` | src/drivers/fs/rivfs/rivfs.hpp:273-426 | the exact set of paths on which `open` agrees with component lookup over all trees |
| `FileTree.WalkDirsMeans` | src/drivers/fs/rivfs/rivfs.hpp:459-510 | `getDirIt` behind the first separator is lookup bounded by one count throughout, and fails on doubled separators |
| `FileTree.DirItMeans` | src/drivers/fs/rivfs/rivfs.hpp:441-513 | the same for whole absolute paths |
| `FileTree.BoundedLookupExactly` | src/drivers/fs/rivfs/rivfs.hpp:457-499 | with the root's count applied everywhere an existing directory is found if and only if that count covers every component |
| `FileTree.BoundedFindsNoMore` | src/drivers/fs/rivfs/rivfs.hpp:457-499 | the stale count never makes it find a wrong directory |
| `FileTree.StaleCountHides` | src/drivers/fs/rivfs/rivfs.hpp:457-499 | a three-directory tree in which an existing directory is not found |
| `RivLayout.EncodedSub` | initramfs/genfs/src/main.cpp:209-234 | in an encoded directory every subdirectory is encoded and its list lies strictly before the record that points to it |
| `RivLayout.NestingBounded` | initramfs/genfs/rivfsdata.py:196-215 | `dirstart` strictly decreases down the walk, so nesting is bounded by an offset: the termination measure of the reader |
| `RivLayout.KeepsEncoding` | initramfs/genfs/src/main.cpp:209-234 | appending to an image, or rewriting what lies below a directory's lists, leaves its encoding intact |
| `RivLayout.FilesUnique` | initramfs/genfs/rivfsdata.py:171-188 | the bytes of a file list spell at most one list of files |
| `RivLayout.TreeUnique` | initramfs/genfs/rivfsdata.py:169-215 | an image spells at most one tree at a place |
| `Formats.ImageBytes` | initramfs/genfs/src/main.cpp:209-326 | the 90 bytes of the image of a tree with a file and a subdirectory |
| `GenFs.PushU16LE` | initramfs/genfs/src/main.cpp:84-87 | appends the two bytes of a word, low byte first |
| `GenFs.PushU32LE` | initramfs/genfs/src/main.cpp:89-94 | appends the four bytes of a word, low byte first |
| `GenFs.WithName` | initramfs/genfs/src/main.cpp:113-125 | the bytes are a record of that name and directory, whatever the uninitialised flags hold |
| `GenFs.GenF` | initramfs/genfs/src/main.cpp:139-149 | the bytes are a record of that file |
| `GenFs.WriteFileList` | initramfs/genfs/src/main.cpp:192-208 | appends a list that spells exactly these files and its end marker; the count is theirs modulo 65536; nothing before changes |
| `GenFs.WriteDirList` | initramfs/genfs/src/main.cpp:223-231 | appends records of exactly these subdirectories, each pointing to where it was built |
| `GenFs.BuildDir` | initramfs/genfs/src/main.cpp:209-234 | appends an encoding of the whole subtree (contents, counts and order of lists) and keeps all earlier bytes |
| `GenFs.Generate` | initramfs/genfs/src/main.cpp:293-326 | every tree whose image stays below 4 GiB is turned into an image of that tree |
| `RivFsData.ReadName` | initramfs/genfs/rivfsdata.py:130-145 | a name, an end marker or an out-of-bounds error, exactly when that is what stands there |
| `RivFsData.WalkFiles` | initramfs/genfs/rivfsdata.py:171-188 | returns a list the bytes spell, and fails only where they spell none |
| `RivFsData.Walk` | initramfs/genfs/rivfsdata.py:169-215 | returns a tree the bytes spell within the recursion limit, and fails only where there is none |
| `RivFsData.ParseHeader` | initramfs/genfs/rivfsdata.py:97-126 | accepts every built header and rejects a wrong magic, a cleared read-only flag or a short file |
| `RivFsData.ReadImage` | initramfs/genfs/rivfsdata.py:147-167 | round trip: reading any built image gives exactly the tree it was built from, all reads in bounds; errors only on what is not an image |
| `RivFsData.Find` | initramfs/genfs/rivfsdata.py:228-243 | the file at the non-empty components of a path, first match in every directory |
| `RivFsDriver.FindChar` | src/lib/cstring.hpp:106-113 | first position of the separator, and 0 also when there is none |
| `RivFsDriver.FindFile` | src/drivers/fs/rivfs/rivfs.hpp:331-367 | answers with a handle on the first of the counted files with that name, and only then |
| `RivFsDriver.FindSub` | src/drivers/fs/rivfs/rivfs.hpp:376-422 | finds the record of the first subdirectory of that name among the counted ones, and only then |
| `RivFsDriver.RivFs.CheckCorrectness` | src/drivers/fs/rivfs/rivfs.hpp:115-152 | the exact condition under which an image is accepted; every built image is, and the driver then holds its tree |
| `RivFsDriver.RivFs.FindInDir` | src/drivers/fs/rivfs/rivfs.hpp:155-271 | refines the lookup on trees for every record of an image and every remaining path |
| `RivFsDriver.RivFs.SplitPath` | src/drivers/fs/rivfs/rivfs.hpp:298-320 | the parts are the non-empty components in order |
| `RivFsDriver.RivFs.Open` | src/drivers/fs/rivfs/rivfs.hpp:273-426 | on every built image and every path string, a handle on the file the tree lookup gives, or an error exactly when it gives none |
| `RivFsDriver.RivFs.Filesize` | src/drivers/fs/rivfs/rivfs.hpp:428-432 | the number of bytes of the file the handle is on |
| `RivFsDriver.RivFs.Read` | src/drivers/fs/rivfs/rivfs.hpp:434-439 | exactly the file's bytes and one NUL behind them, which the buffer must have room for; the rest is unchanged |
| `RivFsDriver.RivFs.GetDirIt` | src/drivers/fs/rivfs/rivfs.hpp:441-513 | an iterator over the directory the bounded lookup gives, or an error exactly when it gives none |
| `RivFsDriver.RivFs.DirItGetNextDir` | src/drivers/fs/rivfs/rivfs.hpp:562-592 | the next subdirectory in build order, then only errors |
| `RivFsDriver.RivFs.DrainDirs` | src/drivers/fs/rivfs/rivfs.hpp:562-592 | draining an iterator yields exactly the names of the counted subdirectories in build order |
| `RivFsDriver.RivFs.DirItGetNextFile` | src/drivers/fs/rivfs/rivfs.hpp:525-560 | the next file's name in order; its handle is on that file if and only if the image starts at address 0 |
| `RivFsDriver.RivFs.OpenFileInDirData` | src/drivers/fs/rivfs/rivfs.hpp:594-627 | a handle on the first counted file of that name in the directory, or an error exactly when there is none |
| `RivFsWhole.OpenOnImage` | src/drivers/fs/rivfs/rivfs.hpp:273-426 | what `open` gives on the image of any tree, small directories or not, for any path string |
| `RivFsWhole.BuildAndRead` | initramfs/genfs/src/main.cpp:293-326 | end to end: the reference reader returns the tree that was built, and the driver's `open`, `filesize` and `read` return the bytes `find` points to for every path `open` resolves |
| `Frames.SetBit` | src/mem/page.hpp:20-21 | setting or clearing one bit of a byte changes that bit only |
| `Frames.LowestFree` | src/mem/page.hpp:23-28 | the lowest frame not taken; none only when all are taken |
| `Frames.TakenUntilFreed` | src/mem/page.hpp:23-32 | a frame handed out stays taken until it is freed, over any run |
| `Frames.NoFrameTwice` | src/mem/page.hpp:23-32 | no frame is handed out twice without a free of it in between |
| `Frames.PhysicalFrameAllocator.constructor` | src/mem/page.hpp:13-17 | every frame starts free |
| `Frames.PhysicalFrameAllocator.MarkUsed` | src/mem/page.hpp:20-20 | adds exactly that frame to the set of taken ones |
| `Frames.PhysicalFrameAllocator.MarkFree` | src/mem/page.hpp:21-21 | removes exactly that frame from the set |
| `Frames.PhysicalFrameAllocator.AllocFrame` | src/mem/page.hpp:23-28 | takes and returns the lowest free frame; while frame 0 is taken a null result means exactly that none is free |
| `Frames.PhysicalFrameAllocator.FreeFrame` | src/mem/page.hpp:30-32 | refines the removal of the frame from the set |
| `Paging.BootSpaceMeans` | src/mem/mmu/mmu.hpp:33-47 | the kernel starts with the first 4 MiB mapped one to one, nothing else mapped and nothing shared |
| `Paging.MapInTranslates` | src/mem/mmu/mmu.hpp:78-109 | a mapping makes its page translate to the frame and changes that one page only, in exactly the directories that hold the same directory entry |
| `Paging.MapInSlots` | src/mem/mmu/mmu.hpp:87-102 | a mapping creates no sharing and changes no directory entry but an absent one of its own |
| `Paging.NewTablePrivate` | src/mem/mmu/mmu.hpp:87-99 | a table made for an absent entry belongs to that directory alone |
| `Paging.CreateTranslates` | src/mem/mmu/mmu.hpp:49-70 | a new directory translates as the kernel's does, except in the stack slot, where it translates as its creator's; nobody else's view changes |
| `Paging.CreateShares` | src/mem/mmu/mmu.hpp:49-70 | creation shares tables only by inheritance, at the same index |
| `Paging.ResetTranslates` | src/proc/process.cpp:20-21 | dropping the stack entry unmaps that slot of that directory and nothing else |
| `Paging.UnmapTranslates` | src/mem/mmu/mmu.hpp:115-130 | `unmapPage` unmaps one page in exactly the directories sharing the kernel's table there |
| `Paging.StepShares` | src/mem/mmu/mmu.hpp:49-130 | every step keeps the invariant, and new sharing comes only from creation |
| `Paging.SharingIsInherited` | src/mem/mmu/mmu.hpp:49-130 | over whole runs from boot two directories share a table only at the same index and only where it was inherited at the creation of one of them |
| `Paging.StackSharedExactly` | src/mem/mmu/mmu.hpp:49-130 | over whole runs from boot two processes share their stack's table if and only if they came to share it when one of them was created, and neither has been given a stack of its own since |
| `PageTables.Mmu.Init` | src/mem/mmu/mmu.hpp:33-47 | the words written represent the boot state |
| `PageTables.Mmu.MapPageIn` | src/mem/mmu/mmu.hpp:78-109 | on the words of directories and tables, refines the mapping step; fails (a panic) exactly when no page table is left, changing nothing |
| `PageTables.Mmu.MapBootStack` | src/mem/mmu/mmu.hpp:58-60 | refines the run of identity mappings over the boot stack's pages |
| `PageTables.Mmu.CreateAddressSpace` | src/mem/mmu/mmu.hpp:49-70 | refines creation; fails (a panic) exactly when directories or tables run out |
| `PageTables.Mmu.SwitchAddressSpace` | src/mem/mmu/mmu.hpp:72-76 | makes the directory active and changes nothing else |
| `PageTables.Mmu.UnmapPage` | src/mem/mmu/mmu.hpp:115-130 | refines the unmapping step |
| `PageTables.Mmu.ResetStackSlot` | src/proc/process.cpp:20-21 | refines dropping the stack entry |
| `FreshMapping.ProgressStep` | src/drivers/interrupts/sysc/handler.cpp:90-96 | mapping one more page onto a new frame keeps what the pages before it translate to and everyone else's view |
| `FreshMapping.MapFreshProgress` | src/drivers/interrupts/sysc/handler.cpp:89-96 | the whole loop maps distinct pages to distinct frames nobody held; it stops early only when memory is full |
| `FreshMapping.MapFreshExactly` | src/drivers/interrupts/sysc/handler.cpp:89-96 | the loop panics if and only if the pages it reaches, as many as there are free frames, lie in more slots without a table than there are tables left; otherwise it maps exactly those pages |
| `MmapRuns.BootIsGood` | src/mem/mmu/mmu.hpp:33-47 | the invariant of all runs holds at boot |
| `MmapRuns.KernelMapStaysGood` | src/mem/mmu/mmu.hpp:111-113 | it is kept when the kernel maps pages one to one before there are processes |
| `MmapRuns.MmapCall` | src/drivers/interrupts/sysc/handler.cpp:78-106 | a call panics exactly when page tables run short; otherwise it succeeds if and only if enough frames are free, and returns the old break with every page of the range on a frame no other mapping reaches, the range covering the bytes asked for exactly up to 0xFFFFF000; a failed call changes no break; every earlier range stays intact |
| `MmapRuns.MmapPanicsExactly` | src/mem/mmu/mmu.hpp:87-99 | the panic, in terms of what can be counted before the call: the slots without a table among the pages for which there are frames against the tables left |
| `MmapRuns.HugeSizeMapsNothing` | src/drivers/interrupts/sysc/handler.cpp:85-104 | a size above 0xFFFFF000 rounds to 0: success, with nothing mapped |
| `MmapRuns.SpawnCall` | src/mem/mmu/mmu.hpp:49-70 | a new process keeps the invariant and every live range |
| `MmapRuns.FirstRange` | src/drivers/interrupts/sysc/handler.cpp:78-106 | a new process's first range starts at 0x50000000 and ends in the page of the last byte asked for |
| `MmapRuns.LoadIsOutside` | src/proc/ELF/loader.hpp:115-124 | mapping a segment's pages in slots the kernel lacks changes no heap page of anyone and uses frames nobody held |
| `MmapRuns.StartIsOutside` | src/proc/process.cpp:19-33 | neither does giving a process its stack and starting it |
| `MmapRuns.StepStaysGood` | src/proc/process.cpp:19-33 | creating, loading, running and switching processes keep the invariant and every live range |
| `MmapRuns.GrantsStayLive` | src/drivers/interrupts/sysc/handler.cpp:78-106 | over whole runs in which processes are created, loaded, run, switched between and call `mmap` in any order, every range ever returned stays mapped page by page to frames no other mapping reaches, and ranges of a process never overlap |
| `MmapRuns.LiveFramesDisjoint` | src/drivers/interrupts/sysc/handler.cpp:78-106 | two live ranges have no frame in common |
| `KernelMemory.Kernel.MapFreshPages` | src/drivers/interrupts/sysc/handler.cpp:89-96 | the loop on bitmap and tables refines the mapping of fresh frames |
| `KernelMemory.Kernel.FindActive` | src/drivers/interrupts/sysc/handler.cpp:79-83 | the last process with the active pid; none exactly when no process has it |
| `KernelMemory.Kernel.SyscallMmap` | src/drivers/interrupts/sysc/handler.cpp:78-106 | the system call refines the call on values for every size, panics exactly when it does, and changes nothing without an active process |
| `KernelMemory.Kernel.MapStack` | src/proc/process.cpp:23-30 | the loop on bitmap and tables refines the mapping of stack pages, an unchecked null frame included |
| `KernelMemory.Kernel.RunProcess` | src/proc/process.cpp:14-35 | refines running a process: its private stack, then its pid and directory made active |
| `ProcessStack.StackLoopGrows` | src/proc/process.cpp:23-30 | what any part of the loop has done to the process and left alone for all others |
| `ProcessStack.RunGivesPrivateStack` | src/proc/process.cpp:19-30 | as many stack pages as there are free frames, up to sixteen, on frames nobody held, in a table nobody shares, the rest of their slot unmapped, the pages without a frame together on frame 0, and every other translation as it was |
| `ProcessStack.RunPanicsExactly` | src/proc/process.cpp:19-30 | running a process panics if and only if no page table is left |
| `ProcessStack.StackPagesFallTogether` | src/proc/process.cpp:23-30 | a machine with one frame, where two stack pages of the first process are one page of memory |
| `ElfLoad.StoredByte` | src/proc/ELF/loader.hpp:130-131 | after the stores a segment's frames hold its contents (`ElfShown.SegmentShownWhole` says which part of the file that is), and around them what the frames held before |
| `ElfLoad.StoredElsewhere` | src/proc/ELF/loader.hpp:130-131 | no byte of any other frame changes |
| `ElfSpace.StepReached` | src/proc/ELF/loader.hpp:109-134 | one segment: its pages are on new frames in exactly the directories that hold the same table, and show its bytes there |
| `ElfSpace.StepKept` | src/proc/ELF/loader.hpp:109-134 | every other page of every directory translates as before and shows the same bytes |
| `ElfSpace.OneMoreSegment` | src/proc/ELF/loader.hpp:106-138 | the loader's invariant from one program header to the next, wherever the segment lies |
| `ElfSpace.LoadMeans` | src/proc/ELF/loader.hpp:90-138 | for every file and every memory, what every directory shows at every address after a load: the frame of the last segment there, or what it showed before; the new one otherwise what the kernel does, and the stack of whoever loads |
| `ElfSpace.OthersKept` | src/proc/ELF/loader.hpp:90-138 | for segments in slots the kernel lacks no byte of the kernel or of another process changes |
| `ElfSpace.ShownExactly` | src/proc/ELF/loader.hpp:106-138 | over all memories before the load a segment is shown whole if and only if the last segment on each of its bytes' pages has that byte too |
| `ElfSpace.ApartIsUndisturbed` | src/proc/ELF/loader.hpp:106-138 | which holds where no later segment has a page in common with it |
| `ElfShown.SegmentShownWhole` | src/proc/ELF/loader.hpp:106-138 | after a load the new address space shows, from the first to the last address of every undisturbed segment, the bytes of the file from the segment's offset on and zeros behind them |
| `ElfShown.OneSegmentShown` | src/proc/ELF/loader.hpp:130-131 | a file whose one segment starts at offset 84 and is longer in memory than in the file: its address space shows 1, 2, 3, 4, 0, 0 |
| `ElfShown.ByteAtIs` | src/mem/mmu/mmu.hpp:78-109 | what is shown at an address is the byte of the frame its page translates to, at the address's offset in the page |
| `ElfShown.PagesExactly` | src/proc/ELF/loader.hpp:110-112 | the pages of a segment are exactly those between the one of its first and the one of its last byte |
| `ElfShown.EntryRead` | src/proc/ELF/loader.hpp:62-69 | the 32 bytes of a program header, wherever they stand in a file, are read as its kind, offset, address and two sizes |
| `ElfShown.HeaderRead` | src/proc/ELF/loader.hpp:104-107 | the program headers are where the bytes at 28, 42 and 44 of the file say |
| `ElfShown.LaterSegmentHides` | src/proc/ELF/loader.hpp:115-124 | a file of two one-byte segments on one page, of which the first is hidden |
| `ElfRuns.LoadKeepsGrants` | src/proc/ELF/loader.hpp:90-138 | a successful load is a sequence of the steps over which `mmap` ranges were shown to stay live: it keeps the invariant and every range handed out |
| `Elf.CopyBytes` | src/proc/ELF/loader.hpp:130-130 | `memcpy` through the active directory stores the file's part of the segment, from its offset on, in the segment's frames, byte by byte, and nothing else |
| `Elf.ZeroBytes` | src/proc/ELF/loader.hpp:131-131 | `memset` stores the zeros behind it |
| `Elf.LoadSegment` | src/proc/ELF/loader.hpp:109-134 | on page tables, bitmap and memory refines one segment's step, failing exactly when tables or frames do not suffice, whatever its pages held and whoever shares their slots |
| `Elf.Load` | src/proc/ELF/loader.hpp:90-138 | refines the load of every file whose segments are inside it and the address space: page tables, frames and every byte of memory afterwards; fails if and only if directories, tables or frames do not suffice, and otherwise adds the process with the next pid and the heap's start |
| `Heap.FirstFit` | src/mem/alloc.hpp:28-36 | the first block in address order that is free and large enough |
| `Heap.NothingLost` | src/mem/alloc.hpp:38-50 | the heap from its start to the end of its last block is nine bytes a block and the payloads: nothing is lost between blocks |
| `Heap.AllocKeepsGood` | src/mem/alloc.hpp:25-57 | `alloc` keeps a tiling inside the heap if and only if a free block fits, the end check refuses, or the new block's end does not wrap around: the guards of its branches |
| `Heap.AllocComplete` | src/mem/alloc.hpp:25-57 | for every request: the first fitting block, else one at the tail; null if and only if nothing fits and the end check refuses; inside the heap exactly on safe requests; every other block untouched |
| `Heap.WrappedRequestAccepted` | src/mem/alloc.hpp:40-42 | a concrete request that wraps around is granted and breaks the tiling |
| `Heap.FreeThenAlloc` | src/mem/alloc.hpp:25-61 | after freeing a block every request up to its size succeeds, at that block or before |
| `Heap.StepKeeps` | src/mem/alloc.hpp:17-61 | for every request, wrapping ones too: a step keeps the tiling and the match between live payloads and blocks in use, and keeps the blocks inside the heap exactly when it is safe |
| `Heap.RunKeeps` | src/mem/alloc.hpp:17-61 | the same over every run from `init`: inside the heap exactly as long as every call was safe |
| `Heap.LivePayloadsDisjoint` | src/mem/alloc.hpp:17-61 | in every reachable state live payloads do not overlap and each has room for what was asked for |
| `Heap.LiveInsideExactly` | src/mem/alloc.hpp:17-61 | all of them lie inside the heap if and only if every call so far was safe |
| `KernelHeap.PayloadWritesKeepList` | src/mem/alloc.hpp:7-12 | no write into payloads alters the list of headers |
| `KernelHeap.FlagSet` | src/mem/alloc.hpp:34-61 | changing one in-use byte in memory is changing that block of the list |
| `KernelHeap.BlockAppended` | src/mem/alloc.hpp:38-50 | the four stores of an append make the longer list, leaving every payload byte |
| `KernelHeap.KernelAllocator.Init` | src/mem/alloc.hpp:17-23 | memory holds the list of one empty block in use |
| `KernelHeap.KernelAllocator.FindBlock` | src/mem/alloc.hpp:26-54 | following the links in memory reaches the first fitting block, or the last block exactly when none fits |
| `KernelHeap.KernelAllocator.AllocBlock` | src/mem/alloc.hpp:25-57 | the walk over headers in memory refines `alloc` on lists for every request, staying valid exactly on safe ones; no byte of memory outside headers changes |
| `KernelHeap.KernelAllocator.FreeBlock` | src/mem/alloc.hpp:59-61 | refines freeing on lists; no byte of memory outside headers changes |
| `KernelHeap.KernelAllocator.WritePayload` | src/mem/alloc.hpp:7-12 | a caller's store into a payload keeps the heap valid |
| `Preemption.TickInvisible` | sbinSrc/sched/scheduling/pitHandler.c:18-48 | a timer interrupt changes no process's private registers and keeps everything that names the running process in agreement |
| `Preemption.StepInvisible` | sbinSrc/sched/scheduling/pitHandler.c:18-48 | every step of the machine is a step of the machine without interrupts |
| `Preemption.Contexts` | sbinSrc/sched/scheduling/pitHandler.c:18-48 | simulation over whole runs of computing, interrupts, scheduler start and new processes |
| `Preemption.ResumesUnchanged` | src/proc/run.asm:21-54 | over any run a process that has not computed in between has exactly the registers it had, wherever they were kept |
| `Preemption.ThirdNeverRuns` | sbinSrc/sched/scheduling/pitHandler.c:43-47 | over any run a process behind the first two of the list that is not running never runs |
| `Preemption.SwitchesOver` | sbinSrc/sched/scheduling/pitHandler.c:43-47 | a switch from process i of the first two resumes process 1 - i with the registers saved for it |
| `Preemption.SwitchesAlternate` | sbinSrc/sched/scheduling/pitHandler.c:43-47 | over any run, of two switches in a row one resumes process 0 and the other process 1 |
| `Preemption.SwitchesExactly` | sbinSrc/sched/scheduling/pitHandler.c:40-47 | over any run, once the scheduler is started and knows two processes, it switches exactly at the interrupts whose number is a multiple of 50 |
| `Preemption.FiftyInterrupts` | sbinSrc/sched/scheduling/pitHandler.c:40-47 | between two switches in a row there are exactly fifty interrupts |
| `Preemption.TicksCount` | sbinSrc/sched/scheduling/pitHandler.c:18-20 | the scheduler counts every interrupt once it has its handler |
| `Preemption.StackResumesUnchanged` | src/drivers/interrupts/pit/stub.asm:11-21 | over any run in which nobody else stores in its stack's frames, none of its own pages is mapped to them or taken from them, and no other stack pointer comes within reach of them, it finds the words on its stack again too; processes may be loaded and run and memory mapped meanwhile |
| `Preemption.InterruptLosesExactly` | src/drivers/interrupts/pit/stub.asm:11-21 | otherwise they are lost: an interrupt that does not switch changes a word of memory if and only if it is one of the eleven below the interrupted stack pointer, seen from whatever address space, and held something else |
| `Preemption.Machine.Enter` | src/drivers/interrupts/pit/stub.asm:12-14 | the pushed frame holds the registers in order, and memory changes by exactly those eleven words |
| `Preemption.Machine.Leave` | src/drivers/interrupts/pit/stub.asm:18-21 | popping the frame gives back exactly the interrupted registers |
| `Preemption.Machine.ResumeProcess` | src/proc/run.asm:21-54 | cr3 and all registers are those saved, by way of three words on the process's stack |
| `Preemption.Machine.CtxtSwitch` | src/proc/process.cpp:86-105 | pid, directory and cr3 name the process and it has its saved registers; a panic exactly for a driver or registers never filled in |
| `Preemption.Machine.SchedPitHandler` | sbinSrc/sched/scheduling/pitHandler.c:18-48 | saves the interrupted registers with the stack pointer from before the interrupt, switches exactly when the tick count is a multiple of 50 to the other of two processes (`Preemption.SwitchesOver` says which), and reads a null list exactly between two assignments of the start-up |
| `Preemption.Machine.KernelPitHandler` | src/drivers/interrupts/pit/handler.cpp:27-63 | runs the handler in its owner's address space and restores the interrupted one |
| `Preemption.Machine.TimerInterrupt` | src/drivers/interrupts/pit/handler.cpp:49-62 | the whole path is one transition, which says every word of memory afterwards; the exact conditions of a panic and of the null read |
| `Preemption.WindowOnTheWay` | sbinSrc/sched/sched.c:32-51 | every run in which the scheduler gets its process list after its handler passes through a state where a tick reads through the null list |
| `Preemption.WindowReached` | sbinSrc/sched/sched.c:32-51 | such a state is reached from the scheduler's start in two steps |
| `StackSharing.SharedStackLosesWords` | src/proc/ELF/loader.hpp:90-104 | in directories that share the stack's table, what an interrupt of one process pushes is what the other finds at those addresses |
| `StackSharing.SharedStackRun` | src/mem/mmu/mmu.hpp:66-67 | a run of four steps from boot after which two processes share their stack |
| `StackSharing.RunStackIsAside` | src/proc/process.cpp:19-30 | the stack pages of a process that is run are out of reach of every other process whose stack pointer is on frames taken before |
| `StackSharing.StepKeepsPages` | src/mem/mmu/mmu.hpp:49-130 | which steps of the memory manager such runs may contain: all but those that map these frames or the pages on them in that address space, or take its stack away |
| `StackSharing.StackWordsApartExactly` | src/proc/process.cpp:23-30 | the addresses of a stack are different words of memory if and only if at least fifteen frames were free |
| `Fat32.ReadIsJoined` | src/drivers/fs/FAT32/fat.hpp:264-294 | on every table, cyclic ones too, the bytes read are the first ones of the chain's clusters joined |
| `Fat32.ShortReadIsWholeChain` | src/drivers/fs/FAT32/fat.hpp:285-289 | a read comes out short only where the chain ends, and then it is the whole chain |
| `Fat32.ReadFromChain` | src/drivers/fs/FAT32/fat.hpp:264-294 | on a chain that ends, exactly the first min(n, length) bytes |
| `Fat32.ChainUnique` | src/drivers/fs/FAT32/fat.hpp:83-93 | a cluster starts at most one finite chain |
| `Fat32.ClusterSector` | src/drivers/fs/FAT32/fat.hpp:70-72 | sector j of cluster c is the sector with the 32-bit number of reserved sectors, tables, c - 2 clusters and j |
| `Fat32.ClusterSectorCounted` | src/drivers/fs/FAT32/fat.hpp:122-127 | from cluster 2 on and within 32 bits that is the number itself |
| `FatNames.FatNameOfDotted` | src/drivers/fs/FAT32/fat.hpp:95-120 | a name of base and extension becomes its padded upper-case form |
| `FatNames.SameNameExactly` | src/drivers/fs/FAT32/fat.hpp:95-120 | two such names are the same on disk if and only if they differ at most in case |
| `FatNames.ComponentsOfPath` | src/drivers/fs/FAT32/fat.hpp:178-189 | splitting a path undoes joining its components |
| `Formats.PaddedName` | src/drivers/fs/FAT32/fat.hpp:95-120 | the name Ab.c is eleven characters, upper case, with blanks behind each part |
| `FatDirs.Lookup` | src/drivers/fs/FAT32/fat.hpp:145-167 | a listed entry with that name, or none only if no listed entry has it |
| `FatDirs.ScanIsLookup` | src/drivers/fs/FAT32/fat.hpp:145-167 | the scan over raw records finds the first entry of the abstract directory: up to the end mark, without deleted and long-name records |
| `FatDirs.SearchableExactly` | src/drivers/fs/FAT32/fat.hpp:140-174 | the search for a name ends if and only if the directory's chain does, or an end mark or a matching record stands somewhere along it |
| `FatDirs.EndlessSearch` | src/drivers/fs/FAT32/fat.hpp:140-174 | a volume whose table leads from a cluster to itself, on which a search never ends |
| `FatDirs.ChildIsListed` | src/drivers/fs/FAT32/fat.hpp:129-176 | where the chain ends it always does, and finds the first entry listed under that name |
| `FatDirs.FoundUnderDottedName` | src/drivers/fs/FAT32/fat.hpp:129-176 | a name finds the first listed entry with that padded name whatever the case |
| `FatDirs.LongComponentNamesNothing` | src/drivers/fs/FAT32/fat.hpp:178-189 | the 63-character limit takes nothing away: such a component names nothing anyway |
| `FatDirs.ResolveJoin` | src/drivers/fs/FAT32/fat.hpp:191-215 | a path resolves by resolving its front to a directory and the rest from there |
| `FatDisk.NextClusterIs` | src/drivers/fs/FAT32/fat.hpp:83-93 | a cluster's successor is the low 28 bits of its word in the first table, 128 words a sector, and the chain ends from 0x0FFFFFF8 on |
| `FatDisk.FileByte` | src/drivers/fs/FAT32/fat.hpp:264-294 | over clusters that the table links, byte r of sector j of the k-th cluster on the disk is what a long enough read puts at 512 * (k * sectors a cluster + j) + r |
| `FatDisk.FileEnds` | src/drivers/fs/FAT32/fat.hpp:287-289 | where the table has an end mark for the last of them a read gets no more than these clusters |
| `FatDisk.RecordRead` | src/drivers/fs/FAT32/fat.hpp:47-60 | the 32 bytes of a directory record, for every name, attribute, cluster halves and size, are read as exactly these |
| `FatDisk.SearchDecided` | src/drivers/fs/FAT32/fat.hpp:129-176 | the first record in a directory's linked clusters that is the end mark or carries the name decides the search, with that record's cluster, attributes and size |
| `FatDisk.SearchExhausted` | src/drivers/fs/FAT32/fat.hpp:169-173 | a search past all records of a chain that ends finds nothing |
| `FatDisk.PathNames` | src/drivers/fs/FAT32/fat.hpp:191-215 | a path whose components lead from record to record, through subdirectories, names that record |
| `FatDisk.OpensRecord` | src/drivers/fs/FAT32/fat.hpp:232-258 | a path whose components lead from record to record on the disk, through subdirectories, opens with the cluster, kind and size in the last record's bytes |
| `FatDisk.OpensNothing` | src/drivers/fs/FAT32/fat.hpp:191-215 | a path that comes to a component its directory lacks, or before its end to a record that is no subdirectory, opens nothing |
| `FatDisk.WalkableExactly` | src/drivers/fs/FAT32/fat.hpp:191-215 | the searches of a path all end if and only if it goes one of these two ways |
| `FatDisk.OpensExactly` | src/drivers/fs/FAT32/fat.hpp:232-258 | so `open` gives a file if and only if the path leads to a record, and then what its bytes say |
| `FatDriver.ReadCluster` | src/drivers/fs/FAT32/fat.hpp:122-127 | the buffer holds the cluster's sectors in order, sector j being the one with the 32-bit number of reserved sectors, tables, cluster - 2 clusters and j |
| `FatDriver.FollowChain` | src/drivers/fs/FAT32/fat.hpp:272-290 | terminates on every table; the buffer starts with what is to be read and is unchanged behind it |
| `FatDriver.Read` | src/drivers/fs/FAT32/fat.hpp:264-294 | the first min(len, size) bytes of the chain, which `FatDisk.FileByte` finds on the disk; an error, with nothing written, exactly for a directory |
| `FatDriver.StrToUpper` | src/gen/alpha.hpp:21-26 | upper case up to the first NUL, the rest unchanged |
| `FatDriver.StrEqI` | src/lib/cstring.hpp:29-36 | equality of two C strings apart from case |
| `FatDriver.MakeFatName` | src/drivers/fs/FAT32/fat.hpp:95-120 | refines the padded name, failing exactly when it has none |
| `FatDriver.SameAsMatches` | src/drivers/fs/FAT32/fat.hpp:155-162 | comparing as C strings is comparing all eleven characters, NULs in the record included |
| `FatDriver.ScanCluster` | src/drivers/fs/FAT32/fat.hpp:142-167 | decides the search within a cluster or passes it on to the next |
| `FatDriver.FindDirEntryInDir` | src/drivers/fs/FAT32/fat.hpp:129-176 | wherever the search comes to an end, chains that do not end included: the entry of that name in the abstract directory, or none exactly when it has none (`FatDisk.SearchDecided` says which bytes of the disk that is) |
| `FatDriver.SplitNextPathComponent` | src/drivers/fs/FAT32/fat.hpp:178-189 | the next component and what is behind it; none at the end or beyond 63 characters |
| `FatDriver.ResolvePath` | src/drivers/fs/FAT32/fat.hpp:191-215 | equals component-by-component search of abstract directories wherever those searches end (`FatDisk.PathNames` says which record that is) |
| `FatDriver.Open` | src/drivers/fs/FAT32/fat.hpp:232-258 | the root directory for a path without components, else the resolved entry, else nothing; `FatDisk.OpensExactly` says the same of the bytes on the disk |
| `Numerals.ValueOfDigits` | src/lib/str.hpp:120-140 | a number's numeral has its value |
| `Numerals.Stou` | sbinSrc/sched/gen/alpha.h:85-94 | the value of the leading digits, modulo 2^32 |
| `Numerals.Stoi` | sbinSrc/sched/gen/alpha.h:44-62 | the signed value, wrapped to 32 bits, and 0 when any other character is present |
| `Numerals.StoiOfDigits` | sbinSrc/sched/gen/alpha.h:44-62 | numerals below 2^31 are read as written |
| `Formats.NegativeNumerals` | sbinSrc/sched/gen/alpha.h:44-62 | numerals with a minus sign are read as written, down to -2^31 |
| `Formats.ForeignCharacter` | sbinSrc/sched/gen/alpha.h:44-62 | any character that is no digit, unless it is a leading minus sign, makes the value 0 |
| `Text.ScanTo` | sbinSrc/sched/gen/string.h:10-14 | the first occurrence, or that there is none |
| `Rap.UserRecoversExactly` | sbinSrc/sched/rap/rap.c:33-98 | reading back a printed list gives all names, types, parameter names and addresses if and only if no function has an empty type or more than the 512 parameters that fit the page behind its array, for which the program asks 16 places |
| `Rap.EntriesWithinLines` | sbinSrc/sched/rap/rap.c:33-98 | on every text, well formed or not, there are no more entries than lines |
| `Rap.UserEntryTakesLine` | sbinSrc/sched/rap/rap.c:40-98 | every entry uses up a line |
| `Rap.LinesOfPrinted` | src/drivers/fs/virtkrn/virtkrn.hpp:70-91 | a printed list has one line a function |
| `Formats.PublishedLine` | src/drivers/fs/virtkrn/virtkrn.hpp:44-61 | a function and its line, character for character |
| `Formats.ParametersThatFit` | sbinSrc/sched/rap/rap.c:53-79 | a function with a parameter is read back if and only if it has at most 512 |
| `Rap.KernelRecoversExactly` | src/rap/rap.hpp:43-100 | the kernel's parser recovers a printed list if and only if it is not empty and every function has a parameter |
| `Rap.ReadersAgreeExactly` | src/rap/rap.hpp:43-100 | where the scheduler can read a list, the two parsers agree under exactly that condition |
| `Rap.FirstNamed` | sbinSrc/sched/rap/rap.c:124-132 | lookup gives the address of the first function of that name |
| `RapPrinter.Str.AddText` | src/lib/str.hpp:52-66 | appends, and the capacity is the least doubling with room for the terminator |
| `RapPrinter.Str.AddChar` | src/lib/str.hpp:67-78 | the same for one character |
| `RapPrinter.GrownStep` | src/lib/str.hpp:52-78 | growing one character at a time ends at the same capacity as growing at once |
| `RapPrinter.Str.FromU` | src/lib/str.hpp:120-140 | the string becomes the number's numeral; its digits fit the buffer |
| `RapPrinter.ToStr` | src/drivers/fs/virtkrn/virtkrn.hpp:44-61 | appends the printed form of a function |
| `RapPrinter.Read` | src/drivers/fs/virtkrn/virtkrn.hpp:70-91 | the buffer starts with as much of the printed list as fits in the length; the rest is unchanged |
| `RapReaders.CountOccurence` | sbinSrc/sched/gen/string.h:30-37 | the number of occurrences |
| `RapReaders.UserParamsFrom` | sbinSrc/sched/rap/rap.c:53-79 | refines the parameter list from any position, within the places of its page |
| `RapReaders.ParseRap` | sbinSrc/sched/rap/rap.c:33-98 | refines reading on every text; the entries stay within the array made for them |
| `RapReaders.GetRapAddr` | sbinSrc/sched/rap/rap.c:124-132 | the address of the first entry of that name, or null |
| `RapReaders.LoadRap` | sbinSrc/sched/rap/rap.c:15-98 | printer, buffer and parser together: any list whose text is shorter than the buffer comes back if and only if its parameters fit; a text that fills the buffer never does |
| `RapReaders.ParseFile` | src/rap/rap.hpp:43-100 | refines the kernel's reading on every text |
| `RapKernelList.SchedulerReadsKernelList` | src/drivers/fs/virtkrn/virtkrn.hpp:92-160 | the list the kernel publishes fits the scheduler's buffer and reaches it whole, whatever the addresses; the kernel's own parser does not get it back |
| `RapKernelList.SchedulerLookups` | sbinSrc/sched/sched.c:41-48 | each name the scheduler looks up gives that function's address |
| `LispSyntax.TokensOfRender` | sbinSrc/de/lisp/lisp.c:152-207 | writing tokens with any gaps, comments among them, and tokenizing gives them back if and only if something stands between any two that run into one another |
| `LispSyntax.ParseOfTokens` | sbinSrc/de/lisp/lisp.c:264-326 | parsing an expression's tokens, wherever they stand, gives it back and uses up exactly them |
| `LispSyntax.ReadWritten` | sbinSrc/de/lisp/lisp.c:152-326 | an expression written with any gaps is read back from the whole text, tokenized and parsed, if and only if no number or name runs into the next |
| `Formats.ShaderText` | sbinSrc/de/lisp/lisp.c:152-326 | a text with a name, a number, a string and a comment, and the expression it is read as |
| `LispReader.Vector.PushBack` | sbinSrc/de/lisp/lisp.c:46-64 | appends, whether or not the storage has to double |
| `LispReader.Vector.At` | sbinSrc/de/lisp/lisp.c:65-72 | the element, or a halt exactly when out of bounds |
| `LispReader.NextToken` | sbinSrc/de/lisp/lisp.c:154-205 | the token at a position and how far it reaches, or a scan off the end |
| `LispReader.Tokenize` | sbinSrc/de/lisp/lisp.c:152-207 | refines tokenizing on every text |
| `LispReader.Parser.Expression` | sbinSrc/de/lisp/lisp.c:285-326 | refines parsing at every position, halting exactly when there is no expression |
| `LispReader.Parser.List` | sbinSrc/de/lisp/lisp.c:264-283 | refines parsing the items up to the closing parenthesis |
| `Sine.SinInt` | sbinSrc/de/lisp/lisp.c:501-519 | terminates for every 32-bit input without leaving 32-bit arithmetic, and computes the corrected parabola of the wrapped angle, whose value `Sine.SineNear` and `Sine.SineValues` give |
| `Sine.SineNear` | sbinSrc/de/lisp/lisp.c:501-519 | from 0 to 3141 it lies between 2 below and 5 above p + 0.225 * (p * p / 1000 - p) for the rational p = w * (3141 - w) / 3141 |
| `Sine.SinePositive` | sbinSrc/de/lisp/lisp.c:501-519 | it is positive at every angle between 0 and 3141 |
| `Sine.SineValues` | sbinSrc/de/lisp/lisp.c:501-519 | it is 0 at 0, 535 at 785, 748 at 1570, 0 at 3141 and -747 at 4712 |
| `Sine.SineBounds` | sbinSrc/de/lisp/lisp.c:501-519 | within 786 of zero, with the sign of the wrapped angle |
| `Sine.SinePeriodic` | sbinSrc/de/lisp/lisp.c:505-510 | depends only on the angle modulo 6283 |
| `Sine.SineOdd` | sbinSrc/de/lisp/lisp.c:501-519 | odd |

## Left out

- RivFs: decoding of names to text in the reference reader (`errors="replace"`), so two different byte names that decode alike are kept apart here; its warnings; reading files and listing directories of the host, the tree being an ordered input.
- RivFs: the recursion depth of the reference reader is a parameter; a tree nested more deeply than it is not read.
- RivFsData.Find: splits the path by a function on byte strings instead of the language's own `split`.
- RivFsDriver.RivFs.Open: `null` paths, and the driver's log output.
- Paging and PageTables: access rights, the translation look-aside buffer, and the physical addresses of the tables themselves; directories and tables are rows of two pools, as the kernel's static arrays are.
- Paging.SharingIsInherited: counts the kernel's later one-to-one mappings as ordinary mapping steps.
- MmapRuns.GrantsStayLive: loaded segments lie outside the 128 MiB of addresses where heaps grow and in slots the kernel lacks, and the kernel adds no mappings of its own once there are processes; nothing is ever freed, as in the program.
- KernelMemory.Kernel.RunProcess: the process's own list of stack pages, and the jump of `finalRun`.
- Elf.Load: takes the file as a byte string the loaded segments cannot overlap, and the kernel's own code, tables and variables as reached whatever is mapped over them; segments that run past the end of the address space or of the file, `isValid`, and the fields of `Process` it fills beside the pid, the directory and the break are not covered.
- Heap.RunKeeps: follows a run up to its first unsafe call; what lies behind the end of the heap, and so what the corrupted list does next, is not modelled.
- KernelHeap.KernelAllocator.FreeBlock: takes which block the pointer belongs to as a ghost argument; freeing a pointer that was never handed out is outside the model.
- Preemption.Machine.TimerInterrupt: segment registers and floating-point state, the interrupt controller, and interrupts of any other kind. Stack words are taken to lie at aligned addresses of mapped pages.
- Numerals.Stoi: signed overflow, undefined in C, is taken to wrap around.
- Fat32.ReadIsJoined: assumes sectors of 512 bytes, as the driver's buffers do, and at least one sector a cluster; detection of the volume, allocation failure and the disk controller are not modelled.
- FatDriver.FindDirEntryInDir: where the search never ends the program does not return, and there is nothing to state.
- Rap.UserRecoversExactly: a parameter behind the page of the array counts as an error, since it overwrites the page mapped next; what it overwrites is not modelled. With at most 16 parameters a function the array stays inside the bytes asked for.
- RapReaders.ParseRap: writes an entry once its line is complete, where the program fills it field by field.
- RapReaders.ParseFile: the mapping is its list of insertions; lookups in it with parameter checks are not modelled.
- RapPrinter.Str.AddText: allocation failure, and lengths of 2^31 and more.
- LispReader.Parser.Expression: evaluation of expressions, which compares names by prefix and has only global variables.
- Elsewhere: devices, boot loader, ext2, the virtual file system and its mount points, module claims, configuration files, terminal and drawing.
