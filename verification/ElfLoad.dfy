/** Loading an ELF executable, on values: a new address space, a fresh frame behind every page of every
    PT_LOAD segment, and the segment's bytes in those frames (System V gABI, chapter 5, "Program
    Header"); and what the address space then shows. */
module ElfLoad {
  import opened Bytes
  import opened Paging
  import opened FreshMapping
  import opened MmapRuns

  datatype Segment = Segment(kind: U32, offset: U32, vaddr: U32, filesz: U32, memsz: U32)

  const PT_LOAD: U32 := 1

  // ----- the parts of the file the loader reads -----

  function SegmentAt(file: seq<Byte>, p: nat): Segment
    requires p + 32 <= |file|
  {
    Segment(U32At(file, p), U32At(file, p + 4), U32At(file, p + 8), U32At(file, p + 16), U32At(file, p + 20))
  }

  ghost predicate HeadersInFile(file: seq<Byte>) {
    && |file| >= 52
    && forall i | 0 <= i < SegmentCount(file) :: SegmentPos(file, i) + 32 <= |file|
  }

  function SegmentCount(file: seq<Byte>): U16
    requires |file| >= 52
  {
    U16At(file, 44)
  }

  lemma ProductIsNat(a: nat, b: nat)
    ensures a * b >= 0
  {
  }

  function SegmentPos(file: seq<Byte>, i: nat): nat
    requires |file| >= 52
  {
    ProductIsNat(i, U16At(file, 42));
    U32At(file, 28) + i * U16At(file, 42)
  }

  function SegmentOf(file: seq<Byte>, i: nat): Segment
    requires HeadersInFile(file) && i < SegmentCount(file)
  {
    SegmentAt(file, SegmentPos(file, i))
  }

  // ----- segments and their pages -----

  function Offset(addr: U32): (o: nat)
    ensures o < 4096
  {
    addr % 4096
  }

  function FirstPage(seg: Segment): Page { PageOf(seg.vaddr) }

  /** Pages from the one holding the first byte to the one holding the last. */
  function SegmentPages(seg: Segment): (n: nat)
    requires Fits(seg)
    ensures FirstPage(seg) + n < 0x10_0000 && n * 4096 >= seg.memsz
  {
    (seg.vaddr + seg.memsz + 4095) / 4096 - seg.vaddr / 4096
  }

  function PagesOf(seg: Segment): (s: seq<Page>)
    requires Fits(seg)
    ensures |s| == SegmentPages(seg)
  {
    PagesFrom(FirstPage(seg), SegmentPages(seg))
  }

  predicate Fits(seg: Segment) {
    seg.vaddr + seg.memsz + 4095 < TWO32
  }

  predicate ContentsOk(file: seq<Byte>, seg: Segment) {
    seg.filesz <= seg.memsz && seg.offset + seg.filesz <= |file|
  }

  /** An address on one of the segment's pages. */
  predicate OnPages(seg: Segment, x: U32)
    requires Fits(seg)
  {
    FirstPage(seg) <= PageOf(x) < FirstPage(seg) + SegmentPages(seg)
  }

  predicate InBytes(seg: Segment, x: U32) { seg.vaddr <= x < seg.vaddr + seg.memsz }

  lemma BytesOnPages(seg: Segment, x: U32)
    requires Fits(seg) && InBytes(seg, x)
    ensures OnPages(seg, x)
  {
  }

  /** What a byte of a loaded segment is: from the file, or zero behind the file's part. */
  function WantedByte(file: seq<Byte>, seg: Segment, x: U32): Byte
    requires ContentsOk(file, seg) && InBytes(seg, x)
  {
    if x - seg.vaddr < seg.filesz then file[seg.offset + (x - seg.vaddr)] else 0
  }

  predicate IsLoad(file: seq<Byte>, i: nat)
    requires HeadersInFile(file) && i < SegmentCount(file)
  {
    SegmentOf(file, i).kind == PT_LOAD
  }

  /** Every PT_LOAD segment is inside the file and the address space. */
  ghost predicate Loadable(file: seq<Byte>) {
    && HeadersInFile(file)
    && forall i | 0 <= i < SegmentCount(file) && IsLoad(file, i) ::
      Fits(SegmentOf(file, i)) && ContentsOk(file, SegmentOf(file, i))
  }

  // ----- bytes of memory -----

  function PhysAddr(f: nat, o: nat): nat { f * 4096 + o }

  function FrameOfAddr(a: nat): nat { a / 4096 }

  lemma PhysParts(f: nat, o: nat, g: nat, q: nat)
    requires o < 4096 && q < 4096
    ensures FrameOfAddr(PhysAddr(f, o)) == f
    ensures PhysAddr(g, q) == PhysAddr(f, o) <==> g == f && q == o
  {
  }

  lemma PhysInside(f: nat, o: nat, total: nat)
    requires f < total && o < 4096
    ensures PhysAddr(f, o) < total * 4096
  {
  }

  lemma SameAddr(x: U32, y: U32)
    ensures PageOf(x) == PageOf(y) && Offset(x) == Offset(y) <==> x == y
  {
  }

  /** The physical address of an address on a segment's pages when those are on these frames. */
  function AddrIn(frames: seq<nat>, seg: Segment, x: U32): nat
    requires Fits(seg) && |frames| == SegmentPages(seg) && OnPages(seg, x)
  {
    PhysAddr(frames[PageOf(x) - FirstPage(seg)], Offset(x))
  }

  /** Memory has all these frames, one for each page of the segment. */
  ghost predicate Room(mem: seq<Byte>, frames: seq<nat>, file: seq<Byte>, seg: Segment) {
    && Fits(seg) && ContentsOk(file, seg) && |frames| == SegmentPages(seg) && Distinct(frames)
    && forall j | 0 <= j < |frames| :: PhysAddr(frames[j], 4095) < |mem|
  }

  lemma AddrInside(mem: seq<Byte>, frames: seq<nat>, file: seq<Byte>, seg: Segment, x: U32)
    requires Room(mem, frames, file, seg) && OnPages(seg, x)
    ensures AddrIn(frames, seg, x) < |mem|
    ensures FrameOfAddr(AddrIn(frames, seg, x)) == frames[PageOf(x) - FirstPage(seg)]
  {
    var j := PageOf(x) - FirstPage(seg);
    PhysParts(frames[j], Offset(x), 0, 0);
    assert PhysAddr(frames[j], 4095) < |mem|;
    hide FrameOfAddr;
    hide SegmentPages;
    hide PageOf;
    hide Offset;
  }

  lemma OtherAddr(frames: seq<nat>, seg: Segment, x: U32, y: U32)
    requires Fits(seg) && |frames| == SegmentPages(seg) && Distinct(frames) && x != y && OnPages(seg, x) && OnPages(seg, y)
    ensures AddrIn(frames, seg, x) != AddrIn(frames, seg, y)
  {
    var (i, j) := (PageOf(x) - FirstPage(seg), PageOf(y) - FirstPage(seg));
    PhysParts(frames[i], Offset(x), frames[j], Offset(y));
    SameAddr(x, y);
    hide PhysAddr;
    hide PageOf;
    hide Offset;
    hide FirstPage;
    hide SegmentPages;
  }

  /** Memory after the first `n` bytes of the segment have been stored. */
  ghost function Stored(mem: seq<Byte>, frames: seq<nat>, file: seq<Byte>, seg: Segment, n: nat): (m: seq<Byte>)
    requires Room(mem, frames, file, seg) && n <= seg.memsz
    ensures |m| == |mem|
    decreases n
  {
    if n == 0 then mem
    else
      var x := seg.vaddr + (n - 1);
      BytesOnPages(seg, x);
      AddrInside(mem, frames, file, seg, x);
      Stored(mem, frames, file, seg, n - 1)[AddrIn(frames, seg, x) := WantedByte(file, seg, x)]
  }

  /** The segment's frames then hold its bytes, and on the rest of its pages what they held before. */
  lemma {:induction false} StoredByte(mem: seq<Byte>, frames: seq<nat>, file: seq<Byte>, seg: Segment, n: nat, y: U32)
    requires Room(mem, frames, file, seg) && n <= seg.memsz && OnPages(seg, y)
    ensures AddrIn(frames, seg, y) < |mem|
    ensures Stored(mem, frames, file, seg, n)[AddrIn(frames, seg, y)]
         == if seg.vaddr <= y < seg.vaddr + n then WantedByte(file, seg, y) else mem[AddrIn(frames, seg, y)]
    decreases n
  {
    hide AddrIn;
    hide OnPages;
    hide WantedByte;
    hide SegmentPages;
    hide PhysAddr;
    AddrInside(mem, frames, file, seg, y);
    if n > 0 {
      var x := seg.vaddr + (n - 1);
      StoredByte(mem, frames, file, seg, n - 1, y);
      BytesOnPages(seg, x);
      AddrInside(mem, frames, file, seg, x);
      if x != y {
        OtherAddr(frames, seg, x, y);
      }
    }
  }

  /** No other frame changes. */
  lemma {:induction false} StoredElsewhere(mem: seq<Byte>, frames: seq<nat>, file: seq<Byte>, seg: Segment, n: nat, a: nat)
    requires Room(mem, frames, file, seg) && n <= seg.memsz && a < |mem| && FrameOfAddr(a) !in frames
    ensures Stored(mem, frames, file, seg, n)[a] == mem[a]
    decreases n
  {
    hide AddrIn;
    hide OnPages;
    hide WantedByte;
    hide SegmentPages;
    hide PhysAddr;
    hide FrameOfAddr;
    if n > 0 {
      var x := seg.vaddr + (n - 1);
      StoredElsewhere(mem, frames, file, seg, n - 1, a);
      BytesOnPages(seg, x);
      FrameOn(mem, frames, file, seg, x);
    }
  }

  lemma FrameOn(mem: seq<Byte>, frames: seq<nat>, file: seq<Byte>, seg: Segment, x: U32)
    requires Room(mem, frames, file, seg) && OnPages(seg, x)
    ensures AddrIn(frames, seg, x) < |mem| && FrameOfAddr(AddrIn(frames, seg, x)) in frames
  {
    AddrInside(mem, frames, file, seg, x);
    hide AddrIn;
    hide FrameOfAddr;
    hide SegmentPages;
    hide PhysAddr;
  }

  // ----- the load as a step on values -----

  /** Page tables, taken frames and the bytes of physical memory. */
  datatype Memory = Memory(space: Space, used: set<nat>, bytes: seq<Byte>)

  ghost predicate Backed(l: Memory, total: nat) {
    && Inv(l.space) && total <= MEMORY_FRAMES && |l.bytes| == total * 4096 && 0 in l.used
    && forall f | f in l.used :: f < total
  }

  /** The frames for a segment are new, and its pages translate to them. */
  lemma SegmentTakes(l: Memory, total: nat, d: nat, file: seq<Byte>, seg: Segment)
    requires Backed(l, total) && d <= POOL && Fits(seg) && ContentsOk(file, seg)
    ensures var r := MapFresh(l.space, l.used, total, d, PagesOf(seg), []);
      !r.panic && |r.frames| == SegmentPages(seg) ==>
        && Progress(l.space, l.used, total, d, PagesOf(seg), r.space, r.used, r.frames)
        && Room(l.bytes, r.frames, file, seg) && 0 in r.used
        && MapsRange(r.space, d, FirstPage(seg), r.frames)
        && (forall f | f in r.used :: f < total) && |r.frames| <= total
  {
    var pages, base := PagesOf(seg), FirstPage(seg);
    PagesDistinct(base, SegmentPages(seg));
    NoProgressYet(l.space, l.used, total, d, pages);
    MapFreshProgress(l.space, l.used, total, d, pages, l.space, l.used, []);
    var r := MapFresh(l.space, l.used, total, d, pages, []);
    if !r.panic && |r.frames| == SegmentPages(seg) {
      hide MapFresh;
      hide Inv;
      ProgressFacts(l.space, l.used, total, d, pages, r.space, r.used, r.frames);
      TakenBounded(l.used, total, r.used, r.frames);
      FramesBounded(r.used, total);
      hide Progress;
      hide SegmentPages;
      hide SlotsGrow;
      forall j | 0 <= j < |r.frames| ensures PhysAddr(r.frames[j], 4095) < |l.bytes| {
        PhysInside(r.frames[j], 4095, total);
      }
      forall vq: Page | base <= vq < base + |r.frames| ensures Translate(r.space, d, vq) == Some(r.frames[vq - base]) {
        assert pages[vq - base] == vq;
      }
    }
  }

  /** One PT_LOAD segment; nothing when page tables or frames do not suffice. */
  ghost function SegmentStep(l: Memory, total: nat, d: nat, file: seq<Byte>, seg: Segment): (r: Option<Memory>)
    requires Backed(l, total) && d <= POOL && Fits(seg) && ContentsOk(file, seg)
    ensures r.Some? ==> Backed(r.value, total)
  {
    SegmentTakes(l, total, d, file, seg);
    var r := MapFresh(l.space, l.used, total, d, PagesOf(seg), []);
    if r.panic || |r.frames| < SegmentPages(seg) then None
    else Some(Memory(r.space, r.used, Stored(l.bytes, r.frames, file, seg, seg.memsz)))
  }

  /** The segments from `i` on, each in turn. */
  ghost function SegmentsLoaded(l: Memory, total: nat, d: nat, file: seq<Byte>, i: nat): (r: Option<Memory>)
    requires Backed(l, total) && d <= POOL && Loadable(file) && i <= SegmentCount(file)
    ensures r.Some? ==> Backed(r.value, total)
    decreases SegmentCount(file) - i
  {
    if i == SegmentCount(file) then Some(l)
    else if !IsLoad(file, i) then SegmentsLoaded(l, total, d, file, i + 1)
    else
      match SegmentStep(l, total, d, file, SegmentOf(file, i))
      case None => None
      case Some(l') => SegmentsLoaded(l', total, d, file, i + 1)
  }

  /** A new address space, then the segments. */
  ghost function FileLoaded(l: Memory, total: nat, from: Page, count: nat, file: seq<Byte>): Option<Memory>
    requires Backed(l, total) && from + count <= 0x10_0000 && Loadable(file)
  {
    match Create(l.space, from, count)
    case None => None
    case Some(s) =>
      CreateShares(l.space, from, count);
      SegmentsLoaded(l.(space := s), total, s.nextDir, file, 0)
  }

  lemma SegmentsStep(l: Memory, total: nat, d: nat, file: seq<Byte>, i: nat)
    requires Backed(l, total) && d <= POOL && Loadable(file) && i < SegmentCount(file)
    ensures var now := SegmentsLoaded(l, total, d, file, i);
      if !IsLoad(file, i) then now == SegmentsLoaded(l, total, d, file, i + 1)
      else
        var r := SegmentStep(l, total, d, file, SegmentOf(file, i));
        now == if r.None? then None else SegmentsLoaded(r.value, total, d, file, i + 1)
  {
    hide SegmentStep;
    hide SegmentOf;
    hide SegmentCount;
    hide IsLoad;
  }

  lemma SegmentsDone(l: Memory, total: nat, d: nat, file: seq<Byte>)
    requires Backed(l, total) && d <= POOL && Loadable(file)
    ensures SegmentsLoaded(l, total, d, file, SegmentCount(file)) == Some(l)
  {
  }

  lemma FileSteps(l: Memory, total: nat, from: Page, count: nat, file: seq<Byte>)
    requires Backed(l, total) && from + count <= 0x10_0000 && Loadable(file)
    ensures var c := Create(l.space, from, count);
      && (c.None? ==> FileLoaded(l, total, from, count, file) == None)
      && (c.Some? ==>
            && Backed(l.(space := c.value), total) && c.value.nextDir == l.space.nextDir + 1 <= POOL
            && FileLoaded(l, total, from, count, file) == SegmentsLoaded(l.(space := c.value), total, c.value.nextDir, file, 0))
  {
    if Create(l.space, from, count).Some? {
      CreateShares(l.space, from, count);
    }
    hide SegmentsLoaded;
    hide Loadable;
  }

}
