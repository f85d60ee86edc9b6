/** The kernel's memory as one object: frames, page tables, the bytes of physical memory and the
    processes; the `Mmap` system call and the ELF loader as they run on it. */
module KernelMemory {
  import opened Bytes
  import opened Frames
  import opened Paging
  import opened FreshMapping
  import opened MmapRuns
  import opened PageTables
  import opened ProcessStack

  predicate PageAligned(addr: U32) { addr % 4096 == 0 }

  class Process {
    const pid: nat
    const pageDirectory: nat
    var heapBrk: U32

    constructor (pid: nat, dir: nat)
      ensures this.pid == pid && pageDirectory == dir && heapBrk == 0x5000_0000
    {
      this.pid, pageDirectory, heapBrk := pid, dir, 0x5000_0000;
    }
  }

  class Kernel {
    const frames: PhysicalFrameAllocator
    const mmu: Mmu
    const memory: array<Byte>
    var processes: seq<Process>
    var latestPid: nat
    var activeProcessPid: nat

    constructor (frames: PhysicalFrameAllocator, mmu: Mmu, memory: array<Byte>)
      ensures this.frames == frames && this.mmu == mmu && this.memory == memory && processes == []
      ensures latestPid == 1 && activeProcessPid == 0
    {
      this.frames, this.mmu, this.memory := frames, mmu, memory;
      processes, latestPid, activeProcessPid := [], 1, 0;
    }

    ghost predicate MemoryValid()
      reads this, frames, frames.bitmap, mmu, mmu.dirs, mmu.tables, memory
    {
      && frames.Valid() && mmu.Valid()
      && frames.bitmap as object != mmu.dirs && frames.bitmap as object != mmu.tables
      && memory as object != frames.bitmap && memory as object != mmu.dirs && memory as object != mmu.tables
      && memory.Length == frames.totalFrames * FRAME_SIZE
      && 0 in frames.Used()
    }

    ghost predicate Valid()
      reads this, frames, frames.bitmap, mmu, mmu.dirs, mmu.tables, memory, processes
    {
      && MemoryValid()
      && (forall i | 0 <= i < |processes| :: processes[i].pageDirectory <= POOL && PageAligned(processes[i].heapBrk))
      && forall i, j | 0 <= i < j < |processes| :: processes[i] != processes[j]
    }

    ghost function Procs(): (s: seq<Proc>)
      reads this, processes
      ensures |s| == |processes|
      ensures forall i | 0 <= i < |s| :: s[i] == Proc(processes[i].pageDirectory, PageOf(processes[i].heapBrk))
    {
      seq(|processes|, i requires 0 <= i < |processes| reads this, processes =>
        Proc(processes[i].pageDirectory, PageOf(processes[i].heapBrk)))
    }

    /** The kernel as the value whose runs `MmapRuns` describes. */
    ghost function Abstract(): Machine
      requires MemoryValid()
      reads this, frames, frames.bitmap, mmu, mmu.dirs, mmu.tables, memory, processes
    {
      Machine(mmu.State(), frames.Used(), frames.totalFrames, Procs(), mmu.stackBottom / 4096, mmu.StackPages())
    }

    /** What mapping the rest of `pages` will leave when frames for the first `|got|` have been had. */
    ghost function FreshRest(dir: nat, pages: seq<Page>, got: seq<nat>): Mapped
      requires MemoryValid() && dir <= POOL && |got| <= |pages|
      reads this, frames, frames.bitmap, mmu, mmu.dirs, mmu.tables, memory
    {
      MapFresh(mmu.State(), frames.Used(), frames.totalFrames, dir, pages, got)
    }

    /** One page of the loop below. `full` says that there is no frame for it. */
    method MapFreshPage(dir: nat, virt: U32, ghost pages: seq<Page>, ghost got: seq<nat>)
      returns (ok: bool, full: bool, ghost got': seq<nat>)
      requires MemoryValid() && dir <= POOL && |got| < |pages| && PageOf(virt) == pages[|got|]
      modifies frames.bitmap, mmu`nextPageTable, mmu.dirs, mmu.tables
      ensures MemoryValid()
      ensures !ok ==> !full && old(FreshRest(dir, pages, got)).panic
      ensures ok && full ==>
        got' == got && old(FreshRest(dir, pages, got)) == Mapped(mmu.State(), frames.Used(), got, false)
      ensures ok && !full ==> |got'| == |got| + 1 && old(FreshRest(dir, pages, got)) == FreshRest(dir, pages, got')
    {
      FreshStep(mmu.State(), frames.Used(), frames.totalFrames, dir, pages, got);
      hide MapFresh;
      hide LowestFree;
      hide MapIn;
      hide Inv;
      ghost var f := LowestFree(frames.Used(), frames.totalFrames);
      var frame := frames.AllocFrame();
      if frame == 0 {
        return true, true, got;
      }
      ok := mmu.MapPageIn(dir, frame, virt, WRITABLE + PRESENT);
      full, got' := false, got + [f.value];
    }

    /** The loop shared by `Mmap` and the loader: maps pages from `virtBase` on, each to a frame just
        allocated, until all are mapped or memory is out. A false `ok` is a kernel panic. */
    method MapFreshPages(dir: nat, virtBase: U32, pageCount: nat) returns (ok: bool, mapped: nat, ghost got: seq<nat>)
      requires MemoryValid() && dir <= POOL && PageAligned(virtBase)
      modifies frames.bitmap, mmu`nextPageTable, mmu.dirs, mmu.tables
      ensures MemoryValid() && mapped <= pageCount
      ensures var r := MapFresh(old(mmu.State()), old(frames.Used()), frames.totalFrames, dir,
                                PagesFrom(PageOf(virtBase), pageCount), []);
        && (ok <==> !r.panic)
        && (ok ==> mmu.State() == r.space && frames.Used() == r.used && got == r.frames && mapped == |got|)
    {
      ghost var pages := PagesFrom(PageOf(virtBase), pageCount);
      ghost var r := FreshRest(dir, pages, []);
      hide FreshRest;
      hide MapFresh;
      hide PageAligned;
      hide PageOf;
      hide WrapPage;
      got := [];
      mapped := 0;
      while mapped < pageCount
        invariant mapped <= pageCount && |got| == mapped && MemoryValid() && r == FreshRest(dir, pages, got)
      {
        PageAddress(virtBase, mapped);
        var full;
        ok, full, got := MapFreshPage(dir, Low32(virtBase + mapped * 4096), pages, got);
        if !ok || full {
          return ok, mapped, got;
        }
        mapped := mapped + 1;
      }
      FreshDone(dir, pages, got);
      ok := true;
    }

    lemma FreshDone(dir: nat, pages: seq<Page>, got: seq<nat>)
      requires MemoryValid() && dir <= POOL && |got| == |pages|
      ensures FreshRest(dir, pages, got) == Mapped(mmu.State(), frames.Used(), got, false)
    {
    }

    lemma FreshStep(s: Space, u: set<nat>, total: nat, d: nat, pages: seq<Page>, got: seq<nat>)
      requires Inv(s) && d <= POOL && |got| < |pages| && total <= 0x10_0000 && 0 in u
      ensures var r, f := MapFresh(s, u, total, d, pages, got), LowestFree(u, total);
        && (f.None? ==> r == Mapped(s, u, got, false))
        && (f.Some? ==>
              && 0 < f.value < 0x10_0000 && f.value * FRAME_SIZE / 4096 == f.value
              && var m := MapIn(s, d, pages[|got|], f.value, 3);
                 && (m.None? ==> r.panic)
                 && (m.Some? ==> Inv(m.value) && r == MapFresh(m.value, u + {f.value}, total, d, pages, got + [f.value])))
    {
      if LowestFree(u, total).Some? && MapIn(s, d, pages[|got|], LowestFree(u, total).value, 3).Some? {
        MapInTranslates(s, d, pages[|got|], LowestFree(u, total).value, 3);
      }
    }

    /** Page addresses wrap around as page numbers do. */
    lemma PagesWrap(n: nat)
      ensures Low32(n * 4096) == WrapPage(n) * 4096
    {
      var q, r := n / 0x10_0000, n % 0x10_0000;
      assert n * 4096 == q * 0x1_0000_0000 + r * 4096;
    }

    lemma PageAddress(virtBase: U32, i: nat)
      requires PageAligned(virtBase)
      ensures PageOf(Low32(virtBase + i * 4096)) == WrapPage(PageOf(virtBase) + i)
    {
      var b := virtBase / 4096;
      assert virtBase + i * 4096 == (b + i) * 4096;
      PagesWrap(b + i);
    }

    lemma StackAddress(i: nat)
      requires i < STACK_PAGES
      ensures 0 <= 0xBFFF_0000 - i * 4096 < 0x1_0000_0000 && (0xBFFF_0000 - i * 4096) / 4096 == StackPage(i)
    {
    }

    lemma StackLoopStep(s: Space, u: set<nat>, total: nat, d: nat, i: nat)
      requires Inv(s) && d <= POOL && i < STACK_PAGES && total <= 0x10_0000
      ensures var w := LowestFree(u, total);
        var (f, u') := if w.Some? then (w.value, u + {w.value}) else (0, u);
        && f * FRAME_SIZE < 0x1_0000_0000 && PageOf(f * FRAME_SIZE) == f
        && var m := MapIn(s, d, StackPage(i), f, 3);
           && (m.None? ==> StackLoop(s, u, total, d, i) == None)
           && (m.Some? ==> Inv(m.value) && StackLoop(s, u, total, d, i) == StackLoop(m.value, u', total, d, i + 1))
    {
      var w := LowestFree(u, total);
      var f := if w.Some? then w.value else 0;
      if MapIn(s, d, StackPage(i), f, 3).Some? {
        MapInTranslates(s, d, StackPage(i), f, 3);
      }
    }

    /** What mapping the stack's pages from `i` on will leave. */
    ghost function StackRest(dir: nat, i: nat): Option<(Space, set<nat>)>
      requires MemoryValid() && dir <= POOL && i <= STACK_PAGES
      reads this, frames, frames.bitmap, mmu, mmu.dirs, mmu.tables, memory
    {
      StackLoop(mmu.State(), frames.Used(), frames.totalFrames, dir, i)
    }

    method MapStackFrame(dir: nat, i: nat, frame: U32) returns (ok: bool)
      requires MemoryValid() && dir <= POOL && i < STACK_PAGES
      modifies mmu`nextPageTable, mmu.dirs, mmu.tables
      ensures MemoryValid() && frames.Used() == old(frames.Used())
      ensures var m := MapIn(old(mmu.State()), dir, StackPage(i), PageOf(frame), 3);
        (ok <==> m.Some?) && (ok ==> mmu.State() == m.value)
    {
      StackAddress(i);
      hide MapIn;
      hide Inv;
      hide StackPage;
      ok := mmu.MapPageIn(dir, frame, 0xBFFF_0000 - i * 4096, WRITABLE + PRESENT);
    }

    /** One page of the stack: the allocator's answer is mapped whatever it is. */
    method MapStackPage(dir: nat, i: nat) returns (ok: bool)
      requires MemoryValid() && dir <= POOL && i < STACK_PAGES
      modifies frames.bitmap, mmu`nextPageTable, mmu.dirs, mmu.tables
      ensures MemoryValid()
      ensures old(StackRest(dir, i)) == if ok then StackRest(dir, i + 1) else None
    {
      StackLoopStep(mmu.State(), frames.Used(), frames.totalFrames, dir, i);
      hide StackLoop;
      hide LowestFree;
      hide MapIn;
      hide Inv;
      hide StackPage;
      hide PageOf;
      var frame := frames.AllocFrame();
      ok := MapStackFrame(dir, i, frame);
    }

    /** The loop of `run` over the stack pages. */
    method MapStack(dir: nat) returns (ok: bool)
      requires MemoryValid() && dir <= POOL
      modifies frames.bitmap, mmu`nextPageTable, mmu.dirs, mmu.tables
      ensures MemoryValid()
      ensures old(StackRest(dir, 0)) == if ok then Some((mmu.State(), frames.Used())) else None
    {
      hide StackRest;
      hide MemoryValid;
      var i := 0;
      while i < STACK_PAGES
        invariant i <= STACK_PAGES && MemoryValid() && old(StackRest(dir, 0)) == StackRest(dir, i)
      {
        ok := MapStackPage(dir, i);
        if !ok {
          return;
        }
        i := i + 1;
      }
      StackDone(dir);
      ok := true;
    }

    lemma StackDone(dir: nat)
      requires MemoryValid() && dir <= POOL
      ensures frames.Valid() && mmu.Valid() && StackRest(dir, STACK_PAGES) == Some((mmu.State(), frames.Used()))
    {
    }

    /** `run`, up to the jump into the process. A false `ok` is a kernel panic. */
    method RunProcess(proc: Process) returns (ok: bool)
      requires MemoryValid() && proc.pageDirectory <= POOL
      modifies frames.bitmap, mmu`nextPageTable, mmu`activeDirectory, mmu.dirs, mmu.tables, this`activeProcessPid
      ensures MemoryValid()
      ensures var r := Run(old(mmu.State()), old(frames.Used()), frames.totalFrames, proc.pageDirectory);
        if ok then r.Some? && mmu.State() == r.value.0.(active := proc.pageDirectory) && frames.Used() == r.value.1
        else r == None
      ensures ok ==> activeProcessPid == proc.pid
    {
      hide StackLoop;
      hide Inv;
      mmu.ResetStackSlot(proc.pageDirectory);
      ok := MapStack(proc.pageDirectory);
      if ok {
        activeProcessPid := proc.pid;
        mmu.SwitchAddressSpace(proc.pageDirectory);
      }
    }

    /** The last process with the active pid; the loop does not stop at the first. */
    method FindActive() returns (proc: Process?, ghost p: int)
      ensures proc == null <==> forall k | 0 <= k < |processes| :: processes[k].pid != activeProcessPid
      ensures proc == null ==> p == -1
      ensures proc != null ==> 0 <= p < |processes| && processes[p] == proc && proc.pid == activeProcessPid
      ensures forall k | p < k < |processes| :: 0 <= k ==> processes[k].pid != activeProcessPid
    {
      p := -1;
      proc := null;
      for i := 0 to |processes|
        invariant proc == null ==> p == -1
        invariant proc != null ==> 0 <= p < i && processes[p] == proc && proc.pid == activeProcessPid
        invariant forall k | p < k < i :: 0 <= k ==> processes[k].pid != activeProcessPid
      {
        if processes[i].pid == activeProcessPid {
          proc := processes[i];
          p := i;
        }
      }
    }

    /** `heapBrk += size` */
    method AdvanceBreak(proc: Process, ghost p: nat, size: U32, ghost n: nat)
      requires Valid() && p < |processes| && processes[p] == proc && size == n * 4096
      modifies proc
      ensures Valid() && mmu.State() == old(mmu.State()) && frames.Used() == old(frames.Used())
      ensures Procs() == old(Procs())[p := old(Procs())[p].(brk := WrapPage(old(Procs())[p].brk + n))]
    {
      hide Inv;
      BreakMoves(proc.heapBrk, n);
      proc.heapBrk := Low32(proc.heapBrk + size);
      assert MemoryValid();
    }

    /** The part of `Mmap` behind the search for the process. */
    method MmapFor(proc: Process, ghost p: nat, edi: U32) returns (ok: bool, eax: U32)
      requires Valid() && p < |processes| && processes[p] == proc
      modifies frames.bitmap, mmu`nextPageTable, mmu.dirs, mmu.tables, proc
      ensures ok <==> Mmap(old(Abstract()), p, edi).Some?
      ensures ok ==> Valid() && Mmap(old(Abstract()), p, edi) == Some((Abstract(), eax))
    {
      ghost var before := Abstract();
      MmapCases(before, p, edi);
      SizeInPages(edi);
      var size := RoundToPages(edi);
      var virtBase := proc.heapBrk;
      BreakMoves(virtBase, 0);
      hide MapFresh;
      hide Inv;
      hide Mmap;
      hide PageAligned;
      hide PageOf;
      hide RoundToPages;
      hide PageCount;
      var pageCount := size / 4096;
      var mapped; ghost var got;
      ok, mapped, got := MapFreshPages(proc.pageDirectory, virtBase, pageCount);
      if !ok {
        return false, 0;
      }
      assert Procs() == before.procs;
      assert Valid();
      if mapped < pageCount {
        eax := 0;
        assert Abstract() == before.(space := mmu.State(), used := frames.Used());
      } else {
        AdvanceBreak(proc, p, size, PageCount(edi));
        eax := virtBase;
        assert Abstract() == before.(space := mmu.State(), used := frames.Used(), procs := Procs());
      }
    }

    /** `Mmap`: refines the call of `MmapRuns` for the active process. A false `ok` is a kernel panic. */
    method SyscallMmap(edi: U32) returns (ok: bool, eax: U32, ghost p: int)
      requires Valid()
      modifies frames.bitmap, mmu`nextPageTable, mmu.dirs, mmu.tables, processes
      ensures p == -1 ==> ok && eax == 0 && Valid() && Abstract() == old(Abstract())
      ensures p == -1 ==> forall k | 0 <= k < |processes| :: processes[k].pid != activeProcessPid
      ensures p != -1 ==> 0 <= p < |processes| && processes[p].pid == activeProcessPid
      ensures p != -1 ==> (ok <==> Mmap(old(Abstract()), p, edi).Some?)
      ensures p != -1 && ok ==> Valid() && Mmap(old(Abstract()), p, edi) == Some((Abstract(), eax))
    {
      var proc;
      proc, p := FindActive();
      if proc == null {
        return true, 0, p;
      }
      hide Mmap;
      hide Inv;
      ok, eax := MmapFor(proc, p, edi);
    }

    /** `(edi + 4095) & ~4095` in 32 bits */
    function RoundToPages(edi: U32): U32 {
      Low32(edi + 4095) / 4096 * 4096
    }

    lemma SizeInPages(edi: U32)
      ensures RoundToPages(edi) == PageCount(edi) * 4096 && RoundToPages(edi) / 4096 == PageCount(edi)
    {
    }

    lemma MmapCases(m: Machine, p: nat, edi: U32)
      requires Inv(m.space) && m.total <= 0x10_0000 && p < |m.procs| && m.procs[p].dir <= POOL
      ensures var proc := m.procs[p];
        var r := MapFresh(m.space, m.used, m.total, proc.dir, PagesFrom(proc.brk, PageCount(edi)), []);
        var m' := m.(space := r.space, used := r.used);
        Mmap(m, p, edi) ==
        if r.panic then None
        else if |r.frames| < PageCount(edi) then Some((m', 0))
        else Some((m'.(procs := m.procs[p := proc.(brk := WrapPage(proc.brk + PageCount(edi)))]), proc.brk * 4096))
    {
    }

    lemma BreakMoves(brk: U32, n: nat)
      requires PageAligned(brk)
      ensures PageAligned(Low32(brk + n * 4096)) && PageOf(Low32(brk + n * 4096)) == WrapPage(PageOf(brk) + n)
      ensures PageOf(brk) * 4096 == brk
    {
      var b := brk / 4096;
      assert brk + n * 4096 == (b + n) * 4096;
      PagesWrap(b + n);
    }
  }
}
