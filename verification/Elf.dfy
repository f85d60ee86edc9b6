/** The ELF loader as it runs on the kernel's memory: frames and page tables for each segment, and its
    bytes written through the new address space. The file is a byte string the stores cannot reach. */
module Elf {
  import opened Bytes
  import opened Paging
  import opened FreshMapping
  import opened MmapRuns
  import opened PageTables
  import opened KernelMemory
  import opened ElfLoad

  ghost function MemoryOf(k: Kernel): Memory
    requires k.MemoryValid()
    reads k, k.frames, k.frames.bitmap, k.mmu, k.mmu.dirs, k.mmu.tables, k.memory
  {
    Memory(k.mmu.State(), k.frames.Used(), k.memory[..])
  }

  lemma KernelBacked(k: Kernel)
    requires k.MemoryValid() && k.frames.totalFrames <= MEMORY_FRAMES
    ensures Backed(MemoryOf(k), k.frames.totalFrames)
  {
  }

  // ----- stores through the active address space -----

  /** The processor's walk of the active directory, for a mapped page. */
  method Walk(k: Kernel, x: U32) returns (page: Page)
    requires k.MemoryValid() && k.mmu.activeDirectory <= POOL
    requires Translate(k.mmu.State(), k.mmu.activeDirectory, PageOf(x)).Some?
    ensures Some(page) == Translate(k.mmu.State(), k.mmu.activeDirectory, PageOf(x))
  {
    var directoryIndex: Index := x / 0x40_0000;
    var tableIndex: Index := x / 4096 % 1024;
    assert directoryIndex == Slot(PageOf(x)) && tableIndex == Entry(PageOf(x));
    k.mmu.ReadPde(k.mmu.activeDirectory, directoryIndex);
    var row := k.mmu.dirs[k.mmu.activeDirectory, directoryIndex] / 4096 - k.mmu.tableBase;
    assert PteAt(k.mmu.State(), row, tableIndex) == DecodePte(k.mmu.tables[row, tableIndex]);
    page := k.mmu.tables[row, tableIndex] / 4096;
  }

  method StoreByte(k: Kernel, x: U32, b: Byte)
    requires k.MemoryValid() && k.mmu.activeDirectory <= POOL
    requires var t := Translate(k.mmu.State(), k.mmu.activeDirectory, PageOf(x));
      t.Some? && PhysAddr(t.value, Offset(x)) < k.memory.Length
    modifies k.memory
    ensures k.MemoryValid() && k.mmu.State() == old(k.mmu.State()) && k.frames.Used() == old(k.frames.Used())
    ensures k.memory[..] ==
      old(k.memory[..])[PhysAddr(Translate(k.mmu.State(), k.mmu.activeDirectory, PageOf(x)).value, Offset(x)) := b]
  {
    var page := Walk(k, x);
    k.memory[page * 4096 + x % 4096] := b;
  }

  /** The first `i` bytes of the segment have been stored in `mem`, in the address space that is active. */
  ghost predicate Filling(k: Kernel, s: Space, u: set<nat>, mem: seq<Byte>, frames: seq<nat>, file: seq<Byte>, seg: Segment, i: nat)
    reads k, k.frames, k.frames.bitmap, k.mmu, k.mmu.dirs, k.mmu.tables, k.memory
  {
    && k.MemoryValid() && k.mmu.State() == s && k.frames.Used() == u && s.active <= POOL
    && Room(mem, frames, file, seg) && MapsRange(s, s.active, FirstPage(seg), frames)
    && i <= seg.memsz && k.memory[..] == Stored(mem, frames, file, seg, i)
  }

  /** Where the next byte goes. */
  lemma NextByte(s: Space, mem: seq<Byte>, frames: seq<nat>, file: seq<Byte>, seg: Segment, i: nat)
    requires Inv(s) && s.active <= POOL && Room(mem, frames, file, seg) && MapsRange(s, s.active, FirstPage(seg), frames)
    requires i < seg.memsz
    ensures var x: U32 := seg.vaddr + i; var t := Translate(s, s.active, PageOf(x));
      && t.Some? && PhysAddr(t.value, Offset(x)) < |mem|
      && Stored(mem, frames, file, seg, i + 1)
      == Stored(mem, frames, file, seg, i)[PhysAddr(t.value, Offset(x)) := WantedByte(file, seg, x)]
  {
    hide Inv;
    hide Translate;
    hide SegmentPages;
    hide PageOf;
    hide Offset;
    hide PhysAddr;
    hide WantedByte;
    hide Stored;
    hide Room;
    hide FirstPage;
    StoredNext(mem, frames, file, seg, i);
    var x: U32 := seg.vaddr + i;
    RoomPages(mem, frames, file, seg, x);
    var f := frames[PageOf(x) - FirstPage(seg)];
    assert Translate(s, s.active, PageOf(x)) == Some(f);
    assert AddrIn(frames, seg, x) == PhysAddr(f, Offset(x));
  }

  lemma StoredNext(mem: seq<Byte>, frames: seq<nat>, file: seq<Byte>, seg: Segment, i: nat)
    requires Room(mem, frames, file, seg) && i < seg.memsz
    ensures Fits(seg) && OnPages(seg, seg.vaddr + i) && AddrIn(frames, seg, seg.vaddr + i) < |mem|
    ensures Stored(mem, frames, file, seg, i + 1)
         == Stored(mem, frames, file, seg, i)[AddrIn(frames, seg, seg.vaddr + i) := WantedByte(file, seg, seg.vaddr + i)]
  {
    hide AddrIn;
    hide OnPages;
    hide WantedByte;
    hide SegmentPages;
    hide PhysAddr;
    hide Room;
    NextAddr(mem, frames, file, seg, i);
    var n := i + 1;
    assert Stored(mem, frames, file, seg, n)
        == Stored(mem, frames, file, seg, i)[AddrIn(frames, seg, seg.vaddr + i) := WantedByte(file, seg, seg.vaddr + i)];
  }

  lemma NextAddr(mem: seq<Byte>, frames: seq<nat>, file: seq<Byte>, seg: Segment, i: nat)
    requires Room(mem, frames, file, seg) && i < seg.memsz
    ensures Fits(seg) && ContentsOk(file, seg) && |frames| == SegmentPages(seg)
    ensures OnPages(seg, seg.vaddr + i) && AddrIn(frames, seg, seg.vaddr + i) < |mem|
  {
    BytesOnPages(seg, seg.vaddr + i);
    AddrInside(mem, frames, file, seg, seg.vaddr + i);
    hide AddrIn;
    hide OnPages;
    hide SegmentPages;
    hide PhysAddr;
  }

  lemma RoomPages(mem: seq<Byte>, frames: seq<nat>, file: seq<Byte>, seg: Segment, x: U32)
    requires Room(mem, frames, file, seg) && OnPages(seg, x)
    ensures |frames| == SegmentPages(seg) && 0 <= PageOf(x) - FirstPage(seg) < |frames|
  {
    hide SegmentPages;
    hide PageOf;
    hide FirstPage;
  }

  method FillOne(k: Kernel, ghost file: seq<Byte>, seg: Segment, ghost frames: seq<nat>, i: nat, b: Byte,
                 ghost s: Space, ghost u: set<nat>, ghost mem: seq<Byte>)
    requires Filling(k, s, u, mem, frames, file, seg, i) && i < seg.memsz
    requires ContentsOk(file, seg) && b == WantedByte(file, seg, seg.vaddr + i)
    modifies k.memory
    ensures Filling(k, s, u, mem, frames, file, seg, i + 1)
  {
    hide Filling;
    hide Room;
    hide Stored;
    hide MapsRange;
    hide ContentsOk;
    hide WantedByte;
    hide PhysAddr;
    hide Translate;
    hide Inv;
    FillingNext(k, s, u, mem, frames, file, seg, i);
    StoreByte(k, seg.vaddr + i, b);
    FillingOn(k, s, u, mem, frames, file, seg, i + 1);
  }

  lemma FillingNext(k: Kernel, s: Space, u: set<nat>, mem: seq<Byte>, frames: seq<nat>, file: seq<Byte>, seg: Segment, i: nat)
    requires Filling(k, s, u, mem, frames, file, seg, i) && i < seg.memsz
    ensures k.MemoryValid() && k.mmu.State() == s && k.frames.Used() == u && k.mmu.activeDirectory == s.active <= POOL
    ensures Inv(s) && Room(mem, frames, file, seg) && MapsRange(s, s.active, FirstPage(seg), frames)
    ensures ContentsOk(file, seg) && seg.vaddr + i < TWO32 && InBytes(seg, seg.vaddr + i)
    ensures var x: U32 := seg.vaddr + i; var t := Translate(s, s.active, PageOf(x));
      && t.Some? && PhysAddr(t.value, Offset(x)) < k.memory.Length
      && Stored(mem, frames, file, seg, i + 1) == k.memory[..][PhysAddr(t.value, Offset(x)) := WantedByte(file, seg, x)]
  {
    NextByte(s, mem, frames, file, seg, i);
    hide Inv;
    hide Stored;
    hide MapsRange;
    hide WantedByte;
    hide PhysAddr;
    hide Translate;
  }

  lemma FillingOn(k: Kernel, s: Space, u: set<nat>, mem: seq<Byte>, frames: seq<nat>, file: seq<Byte>, seg: Segment, i: nat)
    requires k.MemoryValid() && k.mmu.State() == s && k.frames.Used() == u && Inv(s) && s.active <= POOL
    requires Room(mem, frames, file, seg) && MapsRange(s, s.active, FirstPage(seg), frames)
    requires i <= seg.memsz && k.memory[..] == Stored(mem, frames, file, seg, i)
    ensures Filling(k, s, u, mem, frames, file, seg, i)
  {
    hide Inv;
    hide Room;
    hide MapsRange;
    hide Stored;
  }

  lemma FillingStarts(k: Kernel, frames: seq<nat>, file: seq<Byte>, seg: Segment)
    requires k.MemoryValid() && k.mmu.activeDirectory <= POOL && Room(k.memory[..], frames, file, seg)
    requires MapsRange(k.mmu.State(), k.mmu.activeDirectory, FirstPage(seg), frames)
    ensures Filling(k, k.mmu.State(), k.frames.Used(), k.memory[..], frames, file, seg, 0) && ContentsOk(file, seg)
  {
    hide Inv;
    hide MapsRange;
  }

  /** `memcpy` of the file's part, byte by byte through the active address space. */
  method CopyBytes(k: Kernel, file: seq<Byte>, seg: Segment, ghost frames: seq<nat>,
                   ghost s: Space, ghost u: set<nat>, ghost mem: seq<Byte>)
    requires Filling(k, s, u, mem, frames, file, seg, 0) && ContentsOk(file, seg)
    modifies k.memory
    ensures Filling(k, s, u, mem, frames, file, seg, seg.filesz)
  {
    hide Filling;
    for i := 0 to seg.filesz
      invariant Filling(k, s, u, mem, frames, file, seg, i)
    {
      FillOne(k, file, seg, frames, i, file[seg.offset + i], s, u, mem);
    }
  }

  /** `memset` of the rest. The length it is given is a signed 32-bit number. */
  method ZeroBytes(k: Kernel, ghost file: seq<Byte>, seg: Segment, ghost frames: seq<nat>,
                   ghost s: Space, ghost u: set<nat>, ghost mem: seq<Byte>)
    requires Filling(k, s, u, mem, frames, file, seg, seg.filesz) && ContentsOk(file, seg)
    requires seg.memsz - seg.filesz < 0x8000_0000
    modifies k.memory
    ensures Filling(k, s, u, mem, frames, file, seg, seg.memsz)
  {
    hide Filling;
    var len := seg.memsz - seg.filesz;
    var i := seg.filesz;
    while len > 0
      invariant 0 <= len && i + len == seg.memsz && Filling(k, s, u, mem, frames, file, seg, i)
    {
      FillOne(k, file, seg, frames, i, 0, s, u, mem);
      i := i + 1;
      len := len - 1;
    }
  }

  method FillSegment(k: Kernel, file: seq<Byte>, seg: Segment, ghost frames: seq<nat>)
    requires k.MemoryValid() && k.mmu.activeDirectory <= POOL && Room(k.memory[..], frames, file, seg)
    requires MapsRange(k.mmu.State(), k.mmu.activeDirectory, FirstPage(seg), frames)
    requires seg.memsz - seg.filesz < 0x8000_0000
    modifies k.memory
    ensures Filling(k, old(k.mmu.State()), old(k.frames.Used()), old(k.memory[..]), frames, file, seg, seg.memsz)
  {
    ghost var s, u, mem := k.mmu.State(), k.frames.Used(), k.memory[..];
    FillingStarts(k, frames, file, seg);
    hide Filling;
    hide Room;
    hide MapsRange;
    hide Inv;
    CopyBytes(k, file, seg, frames, s, u, mem);
    ZeroBytes(k, file, seg, frames, s, u, mem);
  }

  /** Switches to the new address space, writes the segment there, and switches back. */
  method StoreSegment(k: Kernel, dir: nat, file: seq<Byte>, seg: Segment, ghost frames: seq<nat>)
    requires k.MemoryValid() && dir <= POOL && Room(k.memory[..], frames, file, seg)
    requires MapsRange(k.mmu.State(), dir, FirstPage(seg), frames)
    requires |frames| <= MEMORY_FRAMES
    modifies k.mmu`activeDirectory, k.memory
    ensures k.MemoryValid() && k.mmu.State() == old(k.mmu.State()) && k.frames.Used() == old(k.frames.Used())
    ensures k.memory[..] == Stored(old(k.memory[..]), frames, file, seg, seg.memsz)
  {
    ghost var s1 := k.mmu.State();
    assert seg.memsz < 0x8000_0000;
    SetActive(s1, dir);
    hide SegmentPages;
    hide Stored;
    hide Room;
    var callerDirectory := k.mmu.activeDirectory;
    k.mmu.SwitchAddressSpace(dir);
    assert k.MemoryValid();
    RoomFits(k.memory[..], frames, file, seg);
    FillSegment(k, file, seg, frames);
    k.mmu.SwitchAddressSpace(callerDirectory);
    assert k.mmu.State() == s1;
  }

  lemma RoomFits(mem: seq<Byte>, frames: seq<nat>, file: seq<Byte>, seg: Segment)
    requires Room(mem, frames, file, seg)
    ensures seg.filesz <= seg.memsz
  {
  }

  lemma BasePage(x: U32)
    ensures PageAligned(x / 4096 * 4096) && PageOf(x / 4096 * 4096) == PageOf(x)
  {
  }

  /** Maps and fills one PT_LOAD segment: refines `SegmentStep`, whatever was mapped at its pages before and
      whoever shares their slots. A false `ok` is a kernel panic, after which nothing runs. */
  method LoadSegment(k: Kernel, dir: nat, file: seq<Byte>, seg: Segment) returns (ok: bool)
    requires k.MemoryValid() && dir <= POOL && k.frames.totalFrames <= MEMORY_FRAMES && Fits(seg) && ContentsOk(file, seg)
    modifies k.frames.bitmap, k.mmu`nextPageTable, k.mmu`activeDirectory, k.mmu.dirs, k.mmu.tables, k.memory
    ensures k.MemoryValid()
    ensures SegmentStep(old(MemoryOf(k)), k.frames.totalFrames, dir, file, seg) == if ok then Some(MemoryOf(k)) else None
  {
    ghost var l := MemoryOf(k);
    SegmentTakes(l, k.frames.totalFrames, dir, file, seg);
    BasePage(seg.vaddr);
    hide MapFresh;
    hide Inv;
    hide Progress;
    hide Stored;
    var pageCount := SegmentPages(seg);
    ghost var frames;
    var mapped;
    ok, mapped, frames := k.MapFreshPages(dir, seg.vaddr / 4096 * 4096, pageCount);
    if !ok || mapped < pageCount {
      return false;
    }
    StoreSegment(k, dir, file, seg, frames);
  }

  // ----- the whole file -----

  /** One program header: a PT_LOAD segment is loaded, any other is skipped. */
  method LoadHeader(k: Kernel, dir: nat, file: seq<Byte>, i: nat) returns (ok: bool)
    requires k.MemoryValid() && k.frames.totalFrames <= MEMORY_FRAMES
    requires Loadable(file) && i < SegmentCount(file) && dir <= POOL
    modifies k.frames.bitmap, k.mmu`nextPageTable, k.mmu`activeDirectory, k.mmu.dirs, k.mmu.tables, k.memory
    ensures k.MemoryValid() && Backed(old(MemoryOf(k)), k.frames.totalFrames) && Backed(MemoryOf(k), k.frames.totalFrames)
    ensures SegmentsLoaded(old(MemoryOf(k)), k.frames.totalFrames, dir, file, i)
         == if ok then SegmentsLoaded(MemoryOf(k), k.frames.totalFrames, dir, file, i + 1) else None
  {
    KernelBacked(k);
    SegmentsStep(MemoryOf(k), k.frames.totalFrames, dir, file, i);
    hide SegmentsLoaded;
    hide SegmentStep;
    hide SegmentOf;
    hide SegmentCount;
    hide Fits;
    hide ContentsOk;
    var ph := SegmentOf(file, i);
    if ph.kind != PT_LOAD {
      return true;
    }
    ok := LoadSegment(k, dir, file, ph);
  }

  /** The loop of `load` over the program headers. */
  method LoadHeaders(k: Kernel, dir: nat, file: seq<Byte>) returns (ok: bool)
    requires k.MemoryValid() && k.frames.totalFrames <= MEMORY_FRAMES && Loadable(file) && dir <= POOL
    modifies k.frames.bitmap, k.mmu`nextPageTable, k.mmu`activeDirectory, k.mmu.dirs, k.mmu.tables, k.memory
    ensures k.MemoryValid() && Backed(old(MemoryOf(k)), k.frames.totalFrames)
    ensures SegmentsLoaded(old(MemoryOf(k)), k.frames.totalFrames, dir, file, 0) == if ok then Some(MemoryOf(k)) else None
  {
    KernelBacked(k);
    ghost var total := k.frames.totalFrames;
    ghost var want := SegmentsLoaded(MemoryOf(k), total, dir, file, 0);
    hide SegmentsLoaded;
    hide Loadable;
    hide SegmentCount;
    hide Backed;
    hide MemoryOf;
    LoadableCount(file);
    var i := 0;
    while i < SegmentCount(file)
      invariant i <= SegmentCount(file) && k.MemoryValid() && Backed(MemoryOf(k), total)
      invariant want == SegmentsLoaded(MemoryOf(k), total, dir, file, i)
    {
      ok := LoadHeader(k, dir, file, i);
      if !ok {
        return;
      }
      i := i + 1;
    }
    SegmentsDone(MemoryOf(k), total, dir, file);
    ok := true;
  }

  lemma LoadableCount(file: seq<Byte>)
    requires Loadable(file)
    ensures |file| >= 52
  {
  }

  /** The part of `load` that makes the address space. */
  method LoadSpace(k: Kernel, file: seq<Byte>) returns (ok: bool, dir: nat)
    requires k.MemoryValid() && k.frames.totalFrames <= MEMORY_FRAMES && Loadable(file)
    modifies k.frames.bitmap, k.mmu`nextPageTable, k.mmu`nextDirectory, k.mmu`activeDirectory,
             k.mmu.dirs, k.mmu.tables, k.memory
    ensures Backed(old(MemoryOf(k)), k.frames.totalFrames)
    ensures ok ==> k.MemoryValid() && dir == old(k.mmu.nextDirectory) + 1
    ensures FileLoaded(old(MemoryOf(k)), k.frames.totalFrames, k.mmu.stackBottom / 4096, k.mmu.StackPages(), file)
         == if ok then Some(MemoryOf(k)) else None
  {
    KernelBacked(k);
    ghost var l, total := MemoryOf(k), k.frames.totalFrames;
    FileSteps(l, total, k.mmu.stackBottom / 4096, k.mmu.StackPages(), file);
    hide SegmentsLoaded;
    hide FileLoaded;
    hide Loadable;
    hide Create;
    hide Inv;
    ok, dir := k.mmu.CreateAddressSpace();
    if ok {
      assert k.MemoryValid();
      assert MemoryOf(k) == l.(space := k.mmu.State());
      ok := LoadHeaders(k, dir, file);
    }
  }

  /** `load`: refines `FileLoaded`, failing exactly when it does, and adds the process. A false `ok` is a
      kernel panic, after which nothing runs. */
  method Load(k: Kernel, file: seq<Byte>) returns (ok: bool, proc: Process?)
    requires k.MemoryValid() && k.frames.totalFrames <= MEMORY_FRAMES && Loadable(file)
    modifies k.frames.bitmap, k.mmu`nextPageTable, k.mmu`nextDirectory, k.mmu`activeDirectory,
             k.mmu.dirs, k.mmu.tables, k.memory, k`processes, k`latestPid
    ensures Backed(old(MemoryOf(k)), k.frames.totalFrames)
    ensures ok ==> k.MemoryValid() && proc != null && fresh(proc) && k.processes == old(k.processes) + [proc]
    ensures FileLoaded(old(MemoryOf(k)), k.frames.totalFrames, k.mmu.stackBottom / 4096, k.mmu.StackPages(), file)
         == if ok then Some(MemoryOf(k)) else None
    ensures ok ==> proc.pageDirectory == old(k.mmu.nextDirectory) + 1 && proc.heapBrk == 0x5000_0000
    ensures ok ==> proc.pid == old(k.latestPid) && k.latestPid == old(k.latestPid) + 1
  {
    hide Loadable;
    hide FileLoaded;
    hide Inv;
    var pid := k.latestPid;
    k.latestPid := k.latestPid + 1;
    proc := null;
    var dir;
    ok, dir := LoadSpace(k, file);
    if ok {
      proc := new Process(pid, dir);
      k.processes := k.processes + [proc];
    }
  }
}
