/** The `Mmap` system call over whole runs: processes are created, loaded, run and switched between, and
    ask for memory, in any order. */
module MmapRuns {
  import opened Bytes
  import opened Frames
  import opened Paging
  import opened FreshMapping
  import opened ProcessStack

  const HEAP_PAGE: Page := 0x5_0000  // 0x50000000
  const MEMORY_FRAMES: nat := 0x8000  // 128 MiB, the memory the kernel assumes

  /** A process's directory and its break, counted in pages: the break starts page-aligned and only
      moves by whole pages. */
  datatype Proc = Proc(dir: nat, brk: Page)

  datatype Machine = Machine(space: Space, used: set<nat>, total: nat, procs: seq<Proc>,
                             stackFrom: Page, stackCount: nat)

  /** One successful call: the process, the first page of the range, and the frame behind each page. */
  datatype Grant = Grant(proc: nat, base: Page, frames: seq<nat>)

  // ----- the call -----

  /** `(edi + 4095) & ~4095` in 32 bits, in pages. */
  function PageCount(edi: U32): (n: nat)
    ensures edi <= 0xFFFF_F000 ==> n * 4096 >= edi && (edi > 0 ==> (n - 1) * 4096 < edi)
    ensures edi > 0xFFFF_F000 ==> n == 0
  {
    Low32(edi + 4095) / 4096
  }

  function WrapPage(n: nat): (p: Page)
    ensures n < 0x10_0000 ==> p == n
  {
    n % 0x10_0000
  }

  function PagesFrom(base: Page, n: nat): (s: seq<Page>)
    ensures |s| == n && forall j | 0 <= j < n :: s[j] == WrapPage(base + j)
  {
    seq<Page>(n, j requires 0 <= j < n => WrapPage(base + j))
  }

  lemma PagesDistinct(base: Page, n: nat)
    requires n < 0x10_0000
    ensures Distinct(PagesFrom(base, n))
  {
    var s := PagesFrom(base, n);
    forall i, j | 0 <= i < j < n ensures s[i] != s[j] {
      assert base + i == WrapPage(base + i) || base + i == WrapPage(base + i) + 0x10_0000;
      assert base + j == WrapPage(base + j) || base + j == WrapPage(base + j) + 0x10_0000;
    }
  }

  /** The value of eax and the machine after the call; `None` is a panic for want of page tables. */
  ghost function Mmap(m: Machine, p: nat, edi: U32): Option<(Machine, U32)>
    requires Inv(m.space) && m.total <= 0x10_0000 && p < |m.procs| && m.procs[p].dir <= POOL
  {
    var proc := m.procs[p];
    var pages := PagesFrom(proc.brk, PageCount(edi));
    var r := MapFresh(m.space, m.used, m.total, proc.dir, pages, []);
    if r.panic then None
    else
      var m' := m.(space := r.space, used := r.used);
      if |r.frames| < |pages| then Some((m', 0))
      else Some((m'.(procs := m.procs[p := proc.(brk := WrapPage(proc.brk + PageCount(edi)))]), proc.brk * 4096))
  }

  /** A new process with an address space of its own. */
  function Spawn(m: Machine): Option<Machine>
    requires Inv(m.space) && m.stackFrom + m.stackCount <= 0x10_0000
  {
    match Create(m.space, m.stackFrom, m.stackCount)
    case None => None
    case Some(s) => Some(m.(space := s, procs := m.procs + [Proc(s.nextDir, HEAP_PAGE)]))
  }

  // ----- what holds in every reachable state -----

  /** The slots any heap page can lie in. */
  predicate HeapSlot(i: Index) { 320 <= i < 352 }

  ghost predicate FramesKnown(m: Machine) {
    && 0 in m.used && m.total <= MEMORY_FRAMES
    && (forall f | f in m.used :: f < m.total)
  }

  /** The kernel maps nothing where heaps grow, and apart from stacks directories only share what they
      have from the kernel. */
  ghost predicate HeapsApart(s: Space)
    requires Sized(s)
  {
    && (forall i: Index | HeapSlot(i) :: At(s, 0, i).Absent?)
    && forall a, b, i: Index | 0 <= a <= POOL && 0 <= b <= POOL && a != b && i != STACK_SLOT && Shares(s, a, b, i) ::
      At(s, 0, i).Table?
  }

  ghost predicate GoodProcs(m: Machine) {
    && m.space.active <= m.space.nextDir
    && (forall p | 0 <= p < |m.procs| :: GoodProc(m, m.procs[p]))
    && forall p, q | 0 <= p < q < |m.procs| :: m.procs[p].dir != m.procs[q].dir
  }

  /** A break is never ahead of the frames that were handed out. */
  ghost predicate GoodProc(m: Machine, p: Proc) {
    && 0 < p.dir <= m.space.nextDir
    && HEAP_PAGE <= p.brk <= HEAP_PAGE + |m.used|
  }

  ghost predicate Good(m: Machine) {
    && Inv(m.space) && FramesKnown(m) && Reserved(m.space, m.used, m.total) && HeapsApart(m.space) && GoodProcs(m)
    && m.stackFrom + m.stackCount <= 0x10_0000 && BootStackMapped(m.space, m.stackFrom, m.stackCount)
  }

  /** The pages from `base` on translate to these frames, one to one. */
  ghost predicate MapsRange(s: Space, d: nat, base: Page, frames: seq<nat>)
    requires Inv(s) && d <= POOL
  {
    && Distinct(frames)
    && forall vq: Page | base <= vq < base + |frames| :: Translate(s, d, vq) == Some(frames[vq - base])
  }

  /** A grant is live: every page translates to its frame, the frames are taken, and no directory
      reaches one of them in any other way. */
  ghost predicate Live(m: Machine, g: Grant)
    requires Inv(m.space)
  {
    && g.proc < |m.procs| && m.procs[g.proc].dir <= POOL
    && HEAP_PAGE <= g.base && g.base + |g.frames| <= m.procs[g.proc].brk
    && g.base + |g.frames| <= HEAP_PAGE + MEMORY_FRAMES
    && (forall f | f in g.frames :: f in m.used && 0 < f < m.total)
    && MapsRange(m.space, m.procs[g.proc].dir, g.base, g.frames)
    && forall e, vq: Page | 0 <= e <= POOL && Translate(m.space, e, vq).Some? && Translate(m.space, e, vq).value in g.frames ::
      e == m.procs[g.proc].dir && g.base <= vq < g.base + |g.frames|
  }

  ghost predicate AllLive(m: Machine, grants: seq<Grant>)
    requires Inv(m.space)
  {
    forall k | 0 <= k < |grants| :: Live(m, grants[k])
  }

  /** Ranges of one process do not overlap. */
  ghost predicate RangesApart(grants: seq<Grant>) {
    forall k, l | 0 <= k < l < |grants| && grants[k].proc == grants[l].proc ::
      grants[k].base + |grants[k].frames| <= grants[l].base
  }

  /** The kernel's start: the low 4 MiB, with the boot stack in it, mapped and taken. */
  lemma BootIsGood(used: set<nat>, total: nat, stackFrom: Page, stackCount: nat)
    requires 1024 <= total <= MEMORY_FRAMES && stackFrom + stackCount <= 1024
    requires (forall f | f in used :: f < total) && forall f: nat | f < 1024 :: f in used
    ensures Good(Machine(BootSpace(), used, total, [], stackFrom, stackCount))
  {
    BootSpaceMeans();
  }

  /** Before there are processes the kernel maps more pages one to one: its heap and the framebuffer. */
  lemma KernelMapStaysGood(m: Machine, vp: Page)
    requires Good(m) && m.procs == [] && m.space.nextDir == 0
    requires !HeapSlot(Slot(vp)) && (vp in m.used || vp >= m.total)
    requires MapIn(m.space, 0, vp, vp, 3).Some?
    ensures Good(m.(space := MapIn(m.space, 0, vp, vp, 3).value))
  {
    MapInTranslates(m.space, 0, vp, vp, 3);
    MapInSlots(m.space, 0, vp, vp, 3);
  }

  // ----- one call -----

  lemma HeapPageSlot(vp: Page)
    requires HEAP_PAGE <= vp < HEAP_PAGE + MEMORY_FRAMES
    ensures HeapSlot(Slot(vp)) && Slot(vp) != STACK_SLOT
  {
  }

  lemma GrownHeapsApart(s0: Space, d: nat, s: Space)
    requires Sized(s0) && Sized(s) && 0 < d <= POOL && SlotsGrow(s0, d, s) && HeapsApart(s0)
    ensures HeapsApart(s)
  {
    forall a, b, i: Index | 0 <= a <= POOL && 0 <= b <= POOL && a != b && i != STACK_SLOT && Shares(s, a, b, i)
      ensures At(s, 0, i).Table?
    {
      if a != d && b != d {
        assert At(s, a, i) == At(s0, a, i) && At(s, b, i) == At(s0, b, i);
        assert Shares(s0, a, b, i);
      } else {
        var e := if a == d then b else a;
        assert Shares(s, e, d, i);
        assert Shares(s0, e, d, i);
      }
      assert At(s, 0, i) == At(s0, 0, i);
    }
  }

  /** `m'` is `m` after a call of process `p` mapped its pages from the break `b` on onto `frames`. */
  ghost predicate CallMapped(m: Machine, m': Machine, p: nat, frames: seq<nat>) {
    && Good(m) && Inv(m'.space) && p < |m.procs| && m'.total == m.total && |m'.procs| == |m.procs|
    && (forall q | 0 <= q < |m.procs| ::
      m'.procs[q].dir == m.procs[q].dir && m.procs[q].brk <= m'.procs[q].brk)
    && FramesTaken(m.used, m.total, m'.used, frames)
    && var b, d := m.procs[p].brk, m.procs[p].dir;
       && b + |frames| <= HEAP_PAGE + MEMORY_FRAMES
       && MapsRange(m'.space, d, b, frames)
       && forall e, vq: Page | 0 <= e <= POOL && !(e == d && b <= vq < b + |frames|) ::
         Translate(m'.space, e, vq) == Translate(m.space, e, vq)
  }

  lemma ProcFacts(m: Machine, p: nat)
    requires Good(m) && p < |m.procs|
    ensures GoodProc(m, m.procs[p]) && 0 < m.procs[p].dir <= POOL && |m.used| <= m.total <= MEMORY_FRAMES
    ensures Inv(m.space) && 0 in m.used && HeapsApart(m.space)
  {
    FramesBounded(m.used, m.total);
  }

  lemma DirsDiffer(m: Machine, p: nat, q: nat)
    requires Good(m) && p < |m.procs| && q < |m.procs| && p != q
    ensures m.procs[p].dir != m.procs[q].dir
  {
  }

  /** Heap pages are mapped in one directory only, so nothing else changes. */
  lemma OthersUnchanged(s0: Space, u0: set<nat>, total: nat, d: nat, pages: seq<Page>, b: Page,
                        s: Space, u: set<nat>, frames: seq<nat>)
    requires Progress(s0, u0, total, d, pages, s, u, frames) && HeapsApart(s)
    requires HEAP_PAGE <= b && b + |frames| <= HEAP_PAGE + MEMORY_FRAMES
    requires forall j | 0 <= j < |frames| :: pages[j] == b + j
    ensures MapsRange(s, d, b, frames)
    ensures forall e, vq: Page | 0 <= e <= POOL && !(e == d && b <= vq < b + |frames|) ::
      Translate(s, e, vq) == Translate(s0, e, vq)
  {
    assert Sized(s);
    hide HeapsApart;
    hide Slot;
    hide Inv;
    hide SlotsGrow;
    hide FramesTaken;
    forall vq: Page | b <= vq < b + |frames| ensures Translate(s, d, vq) == Some(frames[vq - b]) {
      assert pages[vq - b] == vq;
    }
    forall e, vq: Page | 0 <= e <= POOL && !(e == d && b <= vq < b + |frames|)
      ensures Translate(s, e, vq) == Translate(s0, e, vq)
    {
      if vq in pages[..|frames|] {
        var j :| 0 <= j < |frames| && pages[j] == vq;
        if e != d {
          HeapUnshared(s, e, d, vq);
        }
      }
    }
  }

  lemma HeapUnshared(s: Space, e: nat, d: nat, vq: Page)
    requires Sized(s) && HeapsApart(s) && e <= POOL && d <= POOL && e != d && HEAP_PAGE <= vq < HEAP_PAGE + MEMORY_FRAMES
    ensures !Shares(s, e, d, Slot(vq))
  {
    HeapPageSlot(vq);
  }

  /** The mapping loop of a call. */
  lemma LoopProgress(m: Machine, p: nat, edi: U32)
    requires Good(m) && p < |m.procs|
    ensures var b, d := m.procs[p].brk, m.procs[p].dir;
      var pages := PagesFrom(b, PageCount(edi));
      var r := MapFresh(m.space, m.used, m.total, d, pages, []);
      !r.panic ==>
        && Progress(m.space, m.used, m.total, d, pages, r.space, r.used, r.frames)
        && |r.used| <= m.total && |r.used| == |m.used| + |r.frames| && |r.frames| <= |pages|
        && (|r.frames| < |pages| ==> |r.used| == m.total)
  {
    var b, d := m.procs[p].brk, m.procs[p].dir;
    var pages := PagesFrom(b, PageCount(edi));
    ProcFacts(m, p);
    PagesDistinct(b, PageCount(edi));
    NoProgressYet(m.space, m.used, m.total, d, pages);
    MapFreshProgress(m.space, m.used, m.total, d, pages, m.space, m.used, []);
    var r := MapFresh(m.space, m.used, m.total, d, pages, []);
    if !r.panic {
      FramesBounded(r.used, m.total);
      if |r.frames| < |pages| {
        FullMemory(r.used, m.total);
      }
    }
  }

  lemma MmapUnfolds(m: Machine, p: nat, edi: U32)
    requires Good(m) && p < |m.procs| && Mmap(m, p, edi).Some?
    ensures var (m', eax) := Mmap(m, p, edi).value;
      var proc := m.procs[p];
      var r := MapFresh(m.space, m.used, m.total, proc.dir, PagesFrom(proc.brk, PageCount(edi)), []);
      && !r.panic && |r.frames| <= PageCount(edi) && GrantOf(m, p, edi) == Grant(p, proc.brk, r.frames)
      && m'.space == r.space && m'.used == r.used && m'.total == m.total
      && m'.stackFrom == m.stackFrom && m'.stackCount == m.stackCount
      && if |r.frames| < PageCount(edi) then eax == 0 && m'.procs == m.procs
         else eax == proc.brk * 4096
              && m'.procs == m.procs[p := proc.(brk := WrapPage(proc.brk + PageCount(edi)))]
  {
    LoopProgress(m, p, edi);
    ProcFacts(m, p);
    hide Good;
    hide Progress;
    hide MapFresh;
    hide Inv;
  }

  lemma ProgressFacts(s0: Space, u0: set<nat>, total: nat, d: nat, pages: seq<Page>,
                      s: Space, u: set<nat>, frames: seq<nat>)
    requires Progress(s0, u0, total, d, pages, s, u, frames)
    ensures Inv(s) && FramesTaken(u0, total, u, frames) && SlotsGrow(s0, d, s) && |u| == |u0| + |frames|
    ensures s.nextDir == s0.nextDir && s.active == s0.active
    ensures forall j | 0 <= j < |frames| :: Translate(s, d, pages[j]) == Some(frames[j])
  {
  }

  /** What a loop from process `p`'s break has done. */
  ghost predicate LoopDone(m: Machine, p: nat, s: Space, u: set<nat>, frames: seq<nat>)
    requires Inv(m.space) && p < |m.procs| && m.procs[p].dir <= POOL
  {
    && Inv(s) && HeapsApart(s) && s.nextDir == m.space.nextDir && s.active == m.space.active
    && FramesTaken(m.used, m.total, u, frames)
    && var b, d := m.procs[p].brk, m.procs[p].dir;
       && b + |frames| <= HEAP_PAGE + MEMORY_FRAMES && b + |frames| <= HEAP_PAGE + |u|
       && MapsRange(s, d, b, frames)
       && forall e, vq: Page | 0 <= e <= POOL && !(e == d && b <= vq < b + |frames|) ::
         Translate(s, e, vq) == Translate(m.space, e, vq)
  }

  lemma LoopEffect(m: Machine, p: nat, edi: U32)
    requires Good(m) && p < |m.procs|
    ensures m.procs[p].dir <= POOL
    ensures var r := MapFresh(m.space, m.used, m.total, m.procs[p].dir, PagesFrom(m.procs[p].brk, PageCount(edi)), []);
      !r.panic ==> LoopDone(m, p, r.space, r.used, r.frames)
  {
    ProcFacts(m, p);
    LoopProgress(m, p, edi);
    hide Good;
    hide MapFresh;
    var b, d := m.procs[p].brk, m.procs[p].dir;
    var pages := PagesFrom(b, PageCount(edi));
    var r := MapFresh(m.space, m.used, m.total, d, pages, []);
    if !r.panic {
      ProgressFacts(m.space, m.used, m.total, d, pages, r.space, r.used, r.frames);
      GrownHeapsApart(m.space, d, r.space);
      OthersUnchanged(m.space, m.used, m.total, d, pages, b, r.space, r.used, r.frames);
    }
  }

  /** Seen from outside, a call maps its pages and nothing else. */
  lemma CallMaps(m: Machine, p: nat, edi: U32)
    requires Good(m) && p < |m.procs| && Mmap(m, p, edi).Some?
    ensures var m', g := Mmap(m, p, edi).value.0, GrantOf(m, p, edi);
      && CallMapped(m, m', p, g.frames) && HeapsApart(m'.space)
      && m'.space.nextDir == m.space.nextDir && m'.space.active == m.space.active
  {
    MmapUnfolds(m, p, edi);
    LoopEffect(m, p, edi);
    hide Mmap;
    hide GrantOf;
    hide MapFresh;
    hide Good;
    hide HeapsApart;
  }

  lemma StaysReserved(m: Machine, m': Machine, p: nat, frames: seq<nat>)
    requires CallMapped(m, m', p, frames)
    ensures Reserved(m'.space, m'.used, m'.total)
  {
  }

  /** A grant below the break is untouched by what a later call maps. */
  lemma StaysLive(m: Machine, m': Machine, p: nat, frames: seq<nat>, g: Grant)
    requires CallMapped(m, m', p, frames) && Live(m, g)
    ensures Live(m', g)
  {
    if g.proc != p {
      DirsDiffer(m, p, g.proc);
    }
    ProcFacts(m, p);
    ProcFacts(m, g.proc);
    hide Good;
  }

  /** The frames of a call are reached by nobody else. */
  lemma NewIsLive(m: Machine, m': Machine, p: nat, frames: seq<nat>)
    requires CallMapped(m, m', p, frames) && m.procs[p].brk + |frames| <= m'.procs[p].brk
    ensures Live(m', Grant(p, m.procs[p].brk, frames))
  {
    ProcFacts(m, p);
    assert Reserved(m.space, m.used, m.total);
    hide Good;
  }

  ghost function GrantOf(m: Machine, p: nat, edi: U32): Grant
    requires Good(m) && p < |m.procs|
  {
    var b := m.procs[p].brk;
    Grant(p, b, MapFresh(m.space, m.used, m.total, m.procs[p].dir, PagesFrom(b, PageCount(edi)), []).frames)
  }

  /** When every frame of memory is taken, that many are. */
  lemma {:induction false} FullMemory(u: set<nat>, total: nat)
    requires forall i: nat :: i in u <==> i < total
    ensures |u| == total
  {
    if total == 0 {
      assert u == {};
    } else {
      FullMemory(u - {total - 1}, total - 1);
    }
  }

  /** What a call leaves is again a good state. */
  lemma StaysGood(m: Machine, m': Machine, p: nat, frames: seq<nat>)
    requires CallMapped(m, m', p, frames) && HeapsApart(m'.space)
    requires m'.space.nextDir == m.space.nextDir && m'.space.active == m.space.active
    requires m'.stackFrom == m.stackFrom && m'.stackCount == m.stackCount
    requires forall q | 0 <= q < |m.procs| :: GoodProc(m', m'.procs[q])
    ensures Good(m')
  {
    StaysReserved(m, m', p, frames);
    ProcFacts(m, p);
    forall q, r | 0 <= q < r < |m'.procs| ensures m'.procs[q].dir != m'.procs[r].dir {
      DirsDiffer(m, q, r);
    }
  }

  /** The pages a call reaches before memory is out need more page tables than are left. */
  predicate TablesShort(m: Machine, p: nat, edi: U32)
    requires Sized(m.space) && p < |m.procs| && m.procs[p].dir <= POOL
  {
    var n := Min(PageCount(edi), |FreeFrames(m.used, m.total)|);
    |AbsentSlots(m.space, m.procs[p].dir, PagesFrom(m.procs[p].brk, n))| > POOL - m.space.nextTable
  }

  lemma FreeCount(m: Machine)
    requires FramesKnown(m)
    ensures |FreeFrames(m.used, m.total)| == m.total - |m.used|
  {
    var free := FreeFrames(m.used, m.total);
    FullMemory(free + m.used, m.total);
    assert free !! m.used;
  }

  lemma MmapPanicsExactly(m: Machine, p: nat, edi: U32)
    requires Good(m) && p < |m.procs|
    ensures m.procs[p].dir <= POOL && (Mmap(m, p, edi) == None <==> TablesShort(m, p, edi))
  {
    ProcFacts(m, p);
    var pages := PagesFrom(m.procs[p].brk, PageCount(edi));
    var n := Min(PageCount(edi), |FreeFrames(m.used, m.total)|);
    MapFreshExactly(m.space, m.used, m.total, m.procs[p].dir, pages, []);
    assert pages[0..] == pages;
    assert pages[..n] == PagesFrom(m.procs[p].brk, n);
    hide Good;
    hide MapFresh;
    hide AbsentSlots;
    hide FreeFrames;
    hide Inv;
  }

  lemma MmapReturns(m: Machine, p: nat, edi: U32)
    requires Good(m) && p < |m.procs| && Mmap(m, p, edi).Some?
    ensures var (m', eax), g := Mmap(m, p, edi).value, GrantOf(m, p, edi);
      && Good(m') && |m'.procs| == |m.procs|
      && (eax != 0 <==> PageCount(edi) <= m.total - |m.used|)
      && (eax != 0 ==>
        && eax == m.procs[p].brk * 4096 && g.proc == p && g.base == m.procs[p].brk && |g.frames| == PageCount(edi)
        && Live(m', g)
        && m'.procs == m.procs[p := m.procs[p].(brk := m.procs[p].brk + PageCount(edi))])
      && (eax == 0 ==> m'.procs == m.procs)
      && forall h | Live(m, h) :: Live(m', h)
  {
    var (m', eax) := Mmap(m, p, edi).value;
    var frames := GrantOf(m, p, edi).frames;
    MmapUnfolds(m, p, edi);
    LoopProgress(m, p, edi);
    CallMaps(m, p, edi);
    forall q | 0 <= q < |m.procs| ensures GoodProc(m, m.procs[q]) {
      ProcFacts(m, q);
    }
    ProcFacts(m, p);
    hide Good;
    hide Mmap;
    hide GrantOf;
    hide MapFresh;
    hide Live;
    hide Inv;
    assert |m'.used| == |m.used| + |frames|;
    StaysGood(m, m', p, frames);
    if eax != 0 {
      NewIsLive(m, m', p, frames);
    }
    forall h | Live(m, h) ensures Live(m', h) {
      StaysLive(m, m', p, frames, h);
    }
  }

  /** One call. It panics exactly when the pages it reaches need more page tables than are left.
      Otherwise it succeeds exactly when enough frames are free, and then hands out the range at the old
      break, every page of it live; the range covers the bytes asked for exactly when their number is
      at most 0xFFFFF000. When it fails it gives 0 and leaves every break alone. Either way every
      earlier grant stays live. */
  lemma MmapCall(m: Machine, p: nat, edi: U32)
    requires Good(m) && p < |m.procs|
    ensures m.procs[p].dir <= POOL && (Mmap(m, p, edi) == None <==> TablesShort(m, p, edi))
    ensures Mmap(m, p, edi).Some? ==>
      var (m', eax), g := Mmap(m, p, edi).value, GrantOf(m, p, edi);
      && Good(m') && |m'.procs| == |m.procs|
      && (eax != 0 <==> PageCount(edi) <= |FreeFrames(m.used, m.total)|)
      && (eax != 0 ==>
        && eax == m.procs[p].brk * 4096 && g.proc == p && g.base == m.procs[p].brk && |g.frames| == PageCount(edi)
        && Live(m', g)
        && m'.procs == m.procs[p := m.procs[p].(brk := m.procs[p].brk + PageCount(edi))]
        && (|g.frames| * 4096 >= edi <==> edi <= 0xFFFF_F000))
      && (eax == 0 ==> m'.procs == m.procs)
      && forall h | Live(m, h) :: Live(m', h)
  {
    MmapPanicsExactly(m, p, edi);
    FreeCount(m);
    if Mmap(m, p, edi).Some? {
      MmapReturns(m, p, edi);
    }
    hide Good;
    hide Live;
    hide Mmap;
    hide GrantOf;
    hide TablesShort;
    hide FreeFrames;
  }

  /** A size in the last page of the 32-bit range rounds up to nothing: the call reports success and
      maps no page at all. */
  lemma HugeSizeMapsNothing(m: Machine, p: nat, edi: U32)
    requires Good(m) && p < |m.procs| && edi > 0xFFFF_F000
    ensures Mmap(m, p, edi) == Some((m, m.procs[p].brk * 4096)) && m.procs[p].brk != 0
  {
    assert GoodProc(m, m.procs[p]);
    assert PagesFrom(m.procs[p].brk, PageCount(edi)) == [];
    assert m.procs[p := m.procs[p].(brk := m.procs[p].brk)] == m.procs;
  }

  // ----- a new process -----

  lemma SpawnView(m: Machine)
    requires Good(m) && Spawn(m).Some?
    ensures var s, s' := m.space, Spawn(m).value.space;
      && Inv(s') && s'.nextDir == s.nextDir + 1 && s'.active == s.active
      && (forall e, i: Index | 0 <= e <= POOL ::
        At(s', e, i) == At(s, if e != s'.nextDir then e else if i == STACK_SLOT then s.active else 0, i))
      && forall e, vq: Page | 0 <= e <= POOL ::
        Translate(s', e, vq) == Translate(s, if e != s'.nextDir then e else if Slot(vq) == STACK_SLOT then s.active else 0, vq)
  {
    CreateTranslates(m.space, m.stackFrom, m.stackCount);
  }

  lemma SpawnKeepsApart(m: Machine)
    requires Good(m) && Spawn(m).Some?
    ensures Inv(Spawn(m).value.space) && HeapsApart(Spawn(m).value.space)
  {
    SpawnView(m);
    var s' := Spawn(m).value.space;
    hide Spawn;
    forall a, b, i: Index | 0 <= a <= POOL && 0 <= b <= POOL && a != b && i != STACK_SLOT && Shares(s', a, b, i)
      ensures At(s', 0, i).Table?
    {
      assert a != s'.nextDir && b != s'.nextDir ==> Shares(m.space, a, b, i);
    }
  }

  lemma SpawnKeepsLive(m: Machine, h: Grant)
    requires Good(m) && Spawn(m).Some? && Live(m, h)
    ensures Inv(Spawn(m).value.space) && Live(Spawn(m).value, h)
  {
    SpawnView(m);
    var s' := Spawn(m).value.space;
    assert GoodProc(m, m.procs[h.proc]);
    forall e, vq: Page | 0 <= e <= POOL && Translate(s', e, vq).Some? && Translate(s', e, vq).value in h.frames
      ensures e == m.procs[h.proc].dir && h.base <= vq < h.base + |h.frames|
    {
      if e == s'.nextDir && h.base <= vq < h.base + |h.frames| {
        HeapPageSlot(vq);
      }
    }
  }

  lemma SpawnCall(m: Machine)
    requires Good(m) && Spawn(m).Some?
    ensures var m' := Spawn(m).value;
      Good(m') && |m'.procs| == |m.procs| + 1 && forall h | Live(m, h) :: Live(m', h)
  {
    var m' := Spawn(m).value;
    SpawnView(m);
    SpawnKeepsApart(m);
    forall h | Live(m, h) ensures Live(m', h) {
      SpawnKeepsLive(m, h);
    }
    hide Live;
    hide HeapsApart;
    assert GoodProcs(m') by {
      forall q | 0 <= q < |m'.procs|
        ensures GoodProc(m', m'.procs[q]) && (q < |m.procs| ==> m'.procs[q].dir != m'.space.nextDir)
      {
        assert q < |m.procs| ==> GoodProc(m, m.procs[q]);
      }
    }
  }

  /** A new process's first range starts at 0x50000000 and ends in the page of the last byte asked for. */
  lemma FirstRange(m: Machine, edi: U32)
    requires Good(m) && Spawn(m).Some? && 0 < edi <= 0xFFFF_F000
    ensures var (m', p) := (Spawn(m).value, |m.procs|);
      && Good(m') && p < |m'.procs| && m'.procs[p].dir <= POOL
      && (Mmap(m', p, edi).Some? && Mmap(m', p, edi).value.1 != 0 ==>
            && Mmap(m', p, edi).value.1 == 0x5000_0000 && GrantOf(m', p, edi).base == 0x5_0000
            && edi <= |GrantOf(m', p, edi).frames| * 4096 < edi + 4096)
  {
    SpawnCall(m);
    var (m', p) := (Spawn(m).value, |m.procs|);
    SpawnHeap(m);
    hide Good;
    hide Spawn;
    hide Mmap;
    hide GrantOf;
    hide TablesShort;
    hide Live;
    MmapCall(m', p, edi);
  }

  lemma SpawnHeap(m: Machine)
    requires Inv(m.space) && m.stackFrom + m.stackCount <= 0x10_0000 && Spawn(m).Some?
    ensures var m' := Spawn(m).value; |m.procs| < |m'.procs| && m'.procs[|m.procs|].brk == 0x5_0000
  {
    hide Create;
  }

  // ----- loading, running and switching -----

  /** Pages a segment may occupy: in slots the kernel lacks, neither the stack's nor the heap's. */
  ghost predicate LoadRange(s: Space, base: Page, n: nat)
    requires Sized(s)
  {
    && base + n <= 0x10_0000
    && forall vq: Page | base <= vq < base + n ::
      At(s, 0, Slot(vq)).Absent? && Slot(vq) != STACK_SLOT && !HeapSlot(Slot(vq))
  }

  /** The pages of one segment mapped for a process. */
  ghost predicate Loads(m: Machine, p: nat, base: Page, n: nat, m': Machine)
    requires Good(m)
  {
    && p < |m.procs| && LoadRange(m.space, base, n) && m.procs[p].dir <= POOL && m.total <= 0x10_0000
    && var r := MapFresh(m.space, m.used, m.total, m.procs[p].dir, PagesFrom(base, n), []);
       !r.panic && |r.frames| == n && m' == m.(space := r.space, used := r.used)
  }

  /** A process given its stack and started. */
  ghost predicate Starts(m: Machine, p: nat, m': Machine)
    requires Good(m)
  {
    && p < |m.procs| && m.procs[p].dir <= POOL && m.total <= 0x10_0000
    && var r := Run(m.space, m.used, m.total, m.procs[p].dir);
       r.Some? && m' == m.(space := r.value.0.(active := m.procs[p].dir), used := r.value.1)
  }

  /** What these do: no directory of a process sees its heap pages change, and what is new is on frames
      nobody held, or on frame 0. */
  ghost predicate OutsideHeaps(m: Machine, m': Machine) {
    && Good(m) && Inv(m'.space) && HeapsApart(m'.space)
    && m' == m.(space := m'.space, used := m'.used)
    && m'.space.nextDir == m.space.nextDir && m'.space.active <= m.space.nextDir
    && |m.used| <= |m'.used| && (forall f | f in m.used :: f in m'.used) && (forall f | f in m'.used :: f < m.total)
    && forall e, vq: Page | 0 <= e <= POOL && Translate(m'.space, e, vq) != Translate(m.space, e, vq) ::
      && e != 0 && !HeapSlot(Slot(vq))
      && var t := Translate(m'.space, e, vq);
         t.Some? ==> t.value in m'.used && (t.value == 0 || t.value !in m.used)
  }

  lemma OutsideKeepsGood(m: Machine, m': Machine)
    requires OutsideHeaps(m, m')
    ensures Good(m')
  {
    assert Reserved(m'.space, m'.used, m'.total) by {
      forall e, vq: Page | 0 <= e <= POOL && Translate(m'.space, e, vq).Some?
        ensures var f := Translate(m'.space, e, vq).value; f in m'.used || f >= m'.total
      {
        assert Reserved(m.space, m.used, m.total);
      }
    }
    forall p | 0 <= p < |m'.procs| ensures GoodProc(m', m'.procs[p]) {
      assert GoodProc(m, m.procs[p]);
    }
  }

  lemma OutsideKeepsLive(m: Machine, m': Machine, g: Grant)
    requires OutsideHeaps(m, m') && Live(m, g)
    ensures Live(m', g)
  {
    var d := m.procs[g.proc].dir;
    forall vq: Page | g.base <= vq < g.base + |g.frames| ensures Translate(m'.space, d, vq) == Some(g.frames[vq - g.base]) {
      HeapPageSlot(vq);
    }
    hide Good;
    hide HeapsApart;
    hide Slot;
    hide HeapSlot;
    forall e, vq: Page | 0 <= e <= POOL && Translate(m'.space, e, vq).Some? && Translate(m'.space, e, vq).value in g.frames
      ensures e == d && g.base <= vq < g.base + |g.frames|
    {
      assert Translate(m'.space, e, vq) == Translate(m.space, e, vq);
    }
  }

  lemma LoadProgress(m: Machine, p: nat, base: Page, n: nat, m': Machine) returns (frames: seq<nat>)
    requires Good(m) && Loads(m, p, base, n, m')
    ensures 0 < m.procs[p].dir <= POOL && |frames| == n
    ensures Progress(m.space, m.used, m.total, m.procs[p].dir, PagesFrom(base, n), m'.space, m'.used, frames)
    ensures m' == m.(space := m'.space, used := m'.used) && LoadRange(m.space, base, n)
  {
    var d, pages := m.procs[p].dir, PagesFrom(base, n);
    ProcFacts(m, p);
    if n == 0x10_0000 {
      assert base == 0;
      HeapPageSlot(HEAP_PAGE);
    }
    PagesDistinct(base, n);
    NoProgressYet(m.space, m.used, m.total, d, pages);
    MapFreshProgress(m.space, m.used, m.total, d, pages, m.space, m.used, []);
    frames := MapFresh(m.space, m.used, m.total, d, pages, []).frames;
    hide MapFresh;
    hide Progress;
  }

  /** Only the loaded pages of the one directory translate differently. */
  lemma LoadSeen(s0: Space, u0: set<nat>, total: nat, d: nat, base: Page, n: nat, s: Space, u: set<nat>, frames: seq<nat>,
                 e: nat, vq: Page)
    requires Progress(s0, u0, total, d, PagesFrom(base, n), s, u, frames) && |frames| == n && 0 < d && HeapsApart(s)
    requires LoadRange(s0, base, n) && e <= POOL && Translate(s, e, vq) != Translate(s0, e, vq)
    ensures e == d && base <= vq < base + n && Translate(s, d, vq) == Some(frames[vq - base])
  {
    var pages := PagesFrom(base, n);
    hide Slot;
    hide HeapSlot;
    hide HeapsApart;
    var j :| 0 <= j < n && pages[j] == vq;
    assert vq == base + j;
    if e != d {
      LoadedUnshared(s0, d, s, e, vq);
    }
  }

  lemma LoadLands(s0: Space, u0: set<nat>, total: nat, d: nat, base: Page, n: nat, s: Space, u: set<nat>, frames: seq<nat>,
                  e: nat, vq: Page)
    requires Progress(s0, u0, total, d, PagesFrom(base, n), s, u, frames) && |frames| == n && 0 < d && HeapsApart(s)
    requires LoadRange(s0, base, n) && e <= POOL && Translate(s, e, vq) != Translate(s0, e, vq)
    ensures e != 0 && !HeapSlot(Slot(vq))
    ensures Translate(s, e, vq).Some? ==> Translate(s, e, vq).value in u && Translate(s, e, vq).value !in u0
  {
    LoadSeen(s0, u0, total, d, base, n, s, u, frames, e, vq);
    var j := vq - base;
    hide Slot;
    hide HeapSlot;
    hide HeapsApart;
    hide PagesFrom;
    assert 0 <= j < |frames|;
  }

  lemma TakenBounded(u0: set<nat>, total: nat, u: set<nat>, frames: seq<nat>)
    requires FramesTaken(u0, total, u, frames) && forall f | f in u0 :: f < total
    ensures |u0| <= |u| && (forall f | f in u0 :: f in u) && forall f | f in u :: f < total
  {
  }

  lemma LoadIsOutside(m: Machine, p: nat, base: Page, n: nat, m': Machine)
    requires Good(m) && Loads(m, p, base, n, m')
    ensures OutsideHeaps(m, m')
  {
    var d, pages := m.procs[p].dir, PagesFrom(base, n);
    var frames := LoadProgress(m, p, base, n, m');
    hide Loads;
    ProgressFacts(m.space, m.used, m.total, d, pages, m'.space, m'.used, frames);
    GrownHeapsApart(m.space, d, m'.space);
    TakenBounded(m.used, m.total, m'.used, frames);
    hide Slot;
    hide HeapSlot;
    hide HeapsApart;
    hide Progress;
    hide FramesTaken;
    hide SlotsGrow;
    hide LoadRange;
    hide PagesFrom;
    forall e, vq: Page | 0 <= e <= POOL && Translate(m'.space, e, vq) != Translate(m.space, e, vq)
      ensures e != 0 && !HeapSlot(Slot(vq))
      ensures var t := Translate(m'.space, e, vq); t.Some? ==> t.value in m'.used && (t.value == 0 || t.value !in m.used)
    {
      LoadLands(m.space, m.used, m.total, d, base, n, m'.space, m'.used, frames, e, vq);
    }
  }

  /** Tables made in slots the kernel lacks are not shared. */
  lemma LoadedUnshared(s0: Space, d: nat, s: Space, e: nat, vq: Page)
    requires Sized(s0) && Sized(s) && 0 < d <= POOL && e <= POOL && e != d && SlotsGrow(s0, d, s) && HeapsApart(s)
    requires At(s0, 0, Slot(vq)).Absent? && Slot(vq) != STACK_SLOT
    ensures !Shares(s, e, d, Slot(vq))
  {
    hide Slot;
    assert At(s, 0, Slot(vq)) == At(s0, 0, Slot(vq));
  }

  lemma StartIsOutside(m: Machine, p: nat, m': Machine)
    requires Good(m) && Starts(m, p, m')
    ensures OutsideHeaps(m, m')
  {
    var d := m.procs[p].dir;
    ProcFacts(m, p);
    var frames := RunGivesPrivateStack(m.space, m.used, m.total, d);
    var r := Run(m.space, m.used, m.total, d).value;
    SetActive(r.0, d);
    hide Run;
    assert HeapsApart(m'.space) by {
      forall a, b, i: Index | 0 <= a <= POOL && 0 <= b <= POOL && a != b && i != STACK_SLOT && Shares(m'.space, a, b, i)
        ensures At(m'.space, 0, i).Table?
      {
        assert Shares(m.space, a, b, i);
      }
    }
  }

  lemma SwitchIsOutside(m: Machine, p: nat)
    requires Good(m) && p < |m.procs|
    ensures OutsideHeaps(m, m.(space := m.space.(active := m.procs[p].dir)))
  {
    ProcFacts(m, p);
    SetActive(m.space, m.procs[p].dir);
    var s := m.space.(active := m.procs[p].dir);
    forall a, b, i: Index | 0 <= a <= POOL && 0 <= b <= POOL && a != b && i != STACK_SLOT && Shares(s, a, b, i)
      ensures At(s, 0, i).Table?
    {
      assert Shares(m.space, a, b, i);
    }
  }

  // ----- whole runs -----

  datatype Event =
    | SpawnEvent
    | LoadEvent(proc: nat, base: Page, pages: nat)
    | RunEvent(proc: nat)
    | SwitchEvent(proc: nat)
    | MmapEvent(proc: nat, edi: U32)

  ghost predicate StepTo(m: Machine, e: Event, m': Machine) {
    Good(m) &&
    match e
    case SpawnEvent => Spawn(m) == Some(m')
    case LoadEvent(p, base, n) => Loads(m, p, base, n, m')
    case RunEvent(p) => Starts(m, p, m')
    case SwitchEvent(p) => p < |m.procs| && m' == m.(space := m.space.(active := m.procs[p].dir))
    case MmapEvent(p, edi) => p < |m.procs| && Mmap(m, p, edi).Some? && Mmap(m, p, edi).value.0 == m'
  }

  /** Every step but `mmap` keeps the invariant and every live range. */
  lemma StepStaysGood(m: Machine, e: Event, m': Machine)
    requires StepTo(m, e, m') && !e.MmapEvent?
    ensures Good(m') && forall h | Live(m, h) :: Live(m', h)
  {
    if e == SpawnEvent {
      SpawnCall(m);
    } else {
      match e {
        case LoadEvent(p, base, n) => LoadIsOutside(m, p, base, n, m');
        case RunEvent(p) => StartIsOutside(m, p, m');
        case SwitchEvent(p) => SwitchIsOutside(m, p);
        case _ =>
      }
      OutsideKeepsGood(m, m');
      hide OutsideHeaps;
      hide Good;
      hide Live;
      forall h | Live(m, h) ensures Live(m', h) {
        OutsideKeepsLive(m, m', h);
      }
    }
  }

  ghost predicate IsRun(ms: seq<Machine>, es: seq<Event>) {
    |ms| == |es| + 1 && Good(ms[0]) && forall k | 0 <= k < |es| :: StepTo(ms[k], es[k], ms[k + 1])
  }

  /** The grants after one more event. */
  ghost function GrantsAfter(m: Machine, e: Event, before: seq<Grant>): seq<Grant>
    requires Good(m) && (e.MmapEvent? ==> e.proc < |m.procs| && Mmap(m, e.proc, e.edi).Some?)
  {
    if e.MmapEvent? && Mmap(m, e.proc, e.edi).value.1 != 0 then before + [GrantOf(m, e.proc, e.edi)] else before
  }

  /** The grants of the successful calls of a run, in order. */
  ghost function Grants(ms: seq<Machine>, es: seq<Event>): seq<Grant>
    requires IsRun(ms, es)
    decreases |es|
  {
    if es == [] then []
    else
      var k := |es| - 1;
      assert StepTo(ms[k], es[k], ms[k + 1]);
      RunPrefix(ms, es);
      GrantsAfter(ms[k], es[k], Grants(ms[..k + 1], es[..k]))
  }

  lemma RunPrefix(ms: seq<Machine>, es: seq<Event>)
    requires IsRun(ms, es) && es != []
    ensures IsRun(ms[..|es|], es[..|es| - 1])
  {
    forall k | 0 <= k < |es| - 1 ensures StepTo(ms[..|es|][k], es[..|es| - 1][k], ms[..|es|][k + 1]) {
      assert StepTo(ms[k], es[k], ms[k + 1]);
    }
  }

  lemma GrantsStep(ms: seq<Machine>, es: seq<Event>)
    requires IsRun(ms, es) && es != []
    ensures var k := |es| - 1;
      && StepTo(ms[k], es[k], ms[k + 1]) && IsRun(ms[..k + 1], es[..k])
      && Grants(ms, es) == GrantsAfter(ms[k], es[k], Grants(ms[..k + 1], es[..k]))
  {
    hide StepTo;
    hide Mmap;
    hide GrantOf;
    RunPrefix(ms, es);
    assert StepTo(ms[|es| - 1], es[|es| - 1], ms[|es|]);
  }

  /** Over whole runs: every range ever returned is still mapped, page by page, to frames no other
      mapping reaches, and ranges of one process never overlap. */
  lemma {:induction false} GrantsStayLive(ms: seq<Machine>, es: seq<Event>)
    requires IsRun(ms, es)
    ensures Good(ms[|es|])
    ensures AllLive(ms[|es|], Grants(ms, es)) && RangesApart(Grants(ms, es))
    decreases |es|
  {
    if es != [] {
      var k := |es| - 1;
      RunPrefix(ms, es);
      GrantsStayLive(ms[..k + 1], es[..k]);
      GrantsStep(ms, es);
      hide *;
      GrantStep(ms[k], es[k], ms[k + 1], Grants(ms[..k + 1], es[..k]));
    }
  }

  lemma GrantStep(m: Machine, e: Event, m': Machine, grants: seq<Grant>)
    requires StepTo(m, e, m') && AllLive(m, grants) && RangesApart(grants)
    ensures var after := GrantsAfter(m, e, grants); Good(m') && AllLive(m', after) && RangesApart(after)
  {
    if e.MmapEvent? {
      MmapCall(m, e.proc, e.edi);
      if Mmap(m, e.proc, e.edi).value.1 != 0 {
        AppendGrant(m, grants, GrantOf(m, e.proc, e.edi));
      }
    } else {
      StepStaysGood(m, e, m');
    }
    hide Good;
    hide Live;
    hide Mmap;
    hide GrantOf;
  }

  lemma AppendGrant(m: Machine, grants: seq<Grant>, g: Grant)
    requires Good(m) && AllLive(m, grants) && RangesApart(grants)
    requires g.proc < |m.procs| && g.base == m.procs[g.proc].brk
    ensures RangesApart(grants + [g])
  {
    forall k | 0 <= k < |grants| && grants[k].proc == g.proc ensures grants[k].base + |grants[k].frames| <= g.base {
      assert Live(m, grants[k]);
    }
  }

  /** Two grants that are live together have no frame in common. */
  lemma LiveFramesDisjoint(m: Machine, g: Grant, h: Grant, i: nat, j: nat)
    requires Good(m) && Live(m, g) && Live(m, h) && i < |g.frames| && j < |h.frames| && g.frames[i] == h.frames[j]
    ensures g.proc == h.proc && g.base + i == h.base + j
  {
    var vq: Page := h.base + j;
    assert Translate(m.space, m.procs[h.proc].dir, vq) == Some(g.frames[i]);
    assert vq == g.base + (vq - g.base);
  }
}
