/** What the address spaces show after a load, for every file and every memory before it: segments may
    meet on pages, lie over what was mapped before, or lie in slots other address spaces share. */
module ElfSpace {
  import opened Bytes
  import opened Paging
  import opened FreshMapping
  import opened MmapRuns
  import opened ElfLoad

  /** The byte a directory shows at a virtual address, if it maps memory there. */
  ghost function ByteAt(s: Space, mem: seq<Byte>, d: nat, x: U32): Option<Byte>
    requires Inv(s) && d <= POOL
  {
    match Translate(s, d, PageOf(x))
    case None => None
    case Some(f) => if PhysAddr(f, Offset(x)) < |mem| then Some(mem[PhysAddr(f, Offset(x))]) else None
  }

  // ----- one segment -----

  /** What loading a segment changes: the pages it maps, in the directories that hold the same tables. */
  ghost predicate Reaches(s: Space, d: nat, seg: Segment, e: nat, x: U32)
    requires Sized(s) && d <= POOL && e <= POOL && Fits(seg)
  {
    OnPages(seg, x) && Shares(s, e, d, Slot(PageOf(x)))
  }

  /** Where it does, the frame is new, and it shows the segment's bytes and around them what that frame
      held before. */
  ghost predicate SegmentByte(l: Memory, l': Memory, total: nat, file: seq<Byte>, seg: Segment, e: nat, x: U32)
    requires Inv(l'.space) && e <= POOL && ContentsOk(file, seg)
  {
    var t := Translate(l'.space, e, PageOf(x));
    && t.Some? && t.value < total && t.value in l'.used && t.value !in l.used && PhysAddr(t.value, Offset(x)) < |l.bytes|
    && ByteAt(l'.space, l'.bytes, e, x)
       == Some(if InBytes(seg, x) then WantedByte(file, seg, x) else l.bytes[PhysAddr(t.value, Offset(x))])
  }

  lemma StepProgress(l: Memory, total: nat, d: nat, file: seq<Byte>, seg: Segment) returns (frames: seq<nat>)
    requires Backed(l, total) && d <= POOL && Fits(seg) && ContentsOk(file, seg) && SegmentStep(l, total, d, file, seg).Some?
    ensures var l' := SegmentStep(l, total, d, file, seg).value;
      && Progress(l.space, l.used, total, d, PagesOf(seg), l'.space, l'.used, frames)
      && Room(l.bytes, frames, file, seg) && MapsRange(l'.space, d, FirstPage(seg), frames)
      && FramesTaken(l.used, total, l'.used, frames) && SlotsGrow(l.space, d, l'.space)
      && l'.space.nextDir == l.space.nextDir && l'.space.active == l.space.active
      && l'.bytes == Stored(l.bytes, frames, file, seg, seg.memsz)
  {
    SegmentTakes(l, total, d, file, seg);
    var r := MapFresh(l.space, l.used, total, d, PagesOf(seg), []);
    frames := r.frames;
    ProgressFacts(l.space, l.used, total, d, PagesOf(seg), r.space, r.used, r.frames);
    hide MapFresh;
    hide Progress;
    hide Room;
    hide Stored;
    hide MapsRange;
    hide FramesTaken;
    hide SlotsGrow;
  }

  lemma StepReached(l: Memory, total: nat, d: nat, file: seq<Byte>, seg: Segment, e: nat, x: U32)
    requires Backed(l, total) && d <= POOL && Fits(seg) && ContentsOk(file, seg) && SegmentStep(l, total, d, file, seg).Some?
    requires e <= POOL && Reaches(SegmentStep(l, total, d, file, seg).value.space, d, seg, e, x)
    ensures SegmentByte(l, SegmentStep(l, total, d, file, seg).value, total, file, seg, e, x)
  {
    var l' := SegmentStep(l, total, d, file, seg).value;
    var frames := StepProgress(l, total, d, file, seg);
    hide SegmentStep;
    hide Progress;
    hide SlotsGrow;
    hide Stored;
    hide Room;
    hide SegmentPages;
    hide PageOf;
    var j := PageOf(x) - FirstPage(seg);
    FrameNew(l.used, total, l'.used, frames, j);
    hide FramesTaken;
    SharersSee(l'.space, d, e, PageOf(x));
    hide Translate;
    hide Inv;
    assert Translate(l'.space, d, PageOf(x)) == Some(frames[j]);
    hide SegmentByte;
    ByteInFrame(l, l', total, frames, file, seg, e, x);
  }

  lemma ByteInFrame(l: Memory, l': Memory, total: nat, frames: seq<nat>, file: seq<Byte>, seg: Segment, e: nat, x: U32)
    requires Inv(l'.space) && e <= POOL && Room(l.bytes, frames, file, seg) && OnPages(seg, x)
    requires l'.bytes == Stored(l.bytes, frames, file, seg, seg.memsz)
    requires var f := frames[PageOf(x) - FirstPage(seg)];
      Translate(l'.space, e, PageOf(x)) == Some(f) && f < total && f in l'.used && f !in l.used
    ensures SegmentByte(l, l', total, file, seg, e, x)
  {
    StoredByte(l.bytes, frames, file, seg, seg.memsz, x);
    hide Stored;
    hide Room;
    hide Translate;
    hide Inv;
    hide SegmentPages;
    hide PhysAddr;
    hide PageOf;
    hide Offset;
    hide WantedByte;
    assert AddrIn(frames, seg, x) == PhysAddr(frames[PageOf(x) - FirstPage(seg)], Offset(x));
  }

  lemma SharersSee(s: Space, d: nat, e: nat, vp: Page)
    requires Inv(s) && d <= POOL && e <= POOL && Shares(s, e, d, Slot(vp))
    ensures Translate(s, e, vp) == Translate(s, d, vp)
  {
  }

  lemma FrameNew(u0: set<nat>, total: nat, u: set<nat>, frames: seq<nat>, j: nat)
    requires FramesTaken(u0, total, u, frames) && j < |frames|
    ensures frames[j] < total && frames[j] in u && frames[j] !in u0
  {
  }

  /** Everything else is shown as before, and memory outside the new frames is unchanged. */
  lemma StepKept(l: Memory, total: nat, d: nat, file: seq<Byte>, seg: Segment, e: nat, x: U32)
    requires Backed(l, total) && d <= POOL && Fits(seg) && ContentsOk(file, seg) && SegmentStep(l, total, d, file, seg).Some?
    requires e <= POOL && Reserved(l.space, l.used, total)
    requires !Reaches(SegmentStep(l, total, d, file, seg).value.space, d, seg, e, x)
    ensures var l' := SegmentStep(l, total, d, file, seg).value;
      && Translate(l'.space, e, PageOf(x)) == Translate(l.space, e, PageOf(x))
      && ByteAt(l'.space, l'.bytes, e, x) == ByteAt(l.space, l.bytes, e, x)
  {
    var l' := SegmentStep(l, total, d, file, seg).value;
    var frames := StepProgress(l, total, d, file, seg);
    hide SegmentStep;
    StepElsewhere(l.space, l.used, total, d, seg, l'.space, l'.used, frames, e, PageOf(x));
    hide Progress;
    hide SlotsGrow;
    var t := Translate(l.space, e, PageOf(x));
    hide Translate;
    hide Stored;
    hide MapsRange;
    if t.Some? {
      PhysParts(t.value, Offset(x), 0, 0);
      assert t.value in l.used || t.value >= total;
      OldFrame(l.used, total, l'.used, frames, t.value);
      hide FramesTaken;
      hide Room;
      if PhysAddr(t.value, Offset(x)) < |l.bytes| {
        StoredElsewhere(l.bytes, frames, file, seg, seg.memsz, PhysAddr(t.value, Offset(x)));
      }
    }
  }

  lemma OldFrame(u0: set<nat>, total: nat, u: set<nat>, frames: seq<nat>, f: nat)
    requires FramesTaken(u0, total, u, frames) && (f in u0 || f >= total || f !in u)
    ensures f !in frames
  {
  }

  lemma StepElsewhere(s: Space, u: set<nat>, total: nat, d: nat, seg: Segment, s': Space, u': set<nat>, frames: seq<nat>,
                      e: nat, vq: Page)
    requires Fits(seg) && Progress(s, u, total, d, PagesOf(seg), s', u', frames) && e <= POOL
    requires !(FirstPage(seg) <= vq < FirstPage(seg) + SegmentPages(seg) && Shares(s', e, d, Slot(vq)))
    ensures Translate(s', e, vq) == Translate(s, e, vq)
  {
    hide Slot;
    hide Translate;
    hide FramesTaken;
    hide SlotsGrow;
    var pages := PagesOf(seg);
    assert forall j | 0 <= j < |pages| :: pages[j] == FirstPage(seg) + j;
  }

  lemma StepUntouched(l: Memory, total: nat, d: nat, file: seq<Byte>, seg: Segment, a: nat)
    requires Backed(l, total) && d <= POOL && Fits(seg) && ContentsOk(file, seg) && SegmentStep(l, total, d, file, seg).Some?
    requires a < |l.bytes| && FrameOfAddr(a) !in SegmentStep(l, total, d, file, seg).value.used
    ensures SegmentStep(l, total, d, file, seg).value.bytes[a] == l.bytes[a]
  {
    var l' := SegmentStep(l, total, d, file, seg).value;
    var frames := StepProgress(l, total, d, file, seg);
    OldFrame(l.used, total, l'.used, frames, FrameOfAddr(a));
    StoredElsewhere(l.bytes, frames, file, seg, seg.memsz, a);
    hide SegmentStep;
    hide Stored;
    hide Progress;
  }

  lemma StepReserved(l: Memory, total: nat, d: nat, file: seq<Byte>, seg: Segment)
    requires Backed(l, total) && d <= POOL && Fits(seg) && ContentsOk(file, seg) && SegmentStep(l, total, d, file, seg).Some?
    requires Reserved(l.space, l.used, total)
    ensures var l' := SegmentStep(l, total, d, file, seg).value;
      Reserved(l'.space, l'.used, total) && SlotsGrow(l.space, d, l'.space) && forall f | f in l.used :: f in l'.used
  {
    var l' := SegmentStep(l, total, d, file, seg).value;
    var frames := StepProgress(l, total, d, file, seg);
    forall e, vq: Page | 0 <= e <= POOL && Translate(l'.space, e, vq).Some?
      ensures var f := Translate(l'.space, e, vq).value; f in l'.used || f >= total
    {
      var x := vq * 4096;
      assert PageOf(x) == vq;
      if Reaches(l'.space, d, seg, e, x) {
        StepReached(l, total, d, file, seg, e, x);
      } else {
        StepKept(l, total, d, file, seg, e, x);
      }
    }
  }

  // ----- the whole file -----

  /** The last of the first `n` segments with a page at this address. */
  ghost function LastOn(file: seq<Byte>, n: nat, x: U32): (r: Option<nat>)
    requires Loadable(file) && n <= SegmentCount(file)
    ensures r.Some? ==> r.value < n && IsLoad(file, r.value) && OnPages(SegmentOf(file, r.value), x)
    ensures forall j | (if r.Some? then r.value else -1) < j < n && 0 <= j && IsLoad(file, j) :: !OnPages(SegmentOf(file, j), x)
  {
    if n == 0 then None
    else if IsLoad(file, n - 1) && OnPages(SegmentOf(file, n - 1), x) then Some(n - 1)
    else LastOn(file, n - 1, x)
  }

  /** After the first `n` program headers a directory shows at an address what the last segment there put
      in memory, if it holds the same table as `d`; otherwise what it showed before. */
  ghost predicate Seen(l0: Memory, l: Memory, total: nat, d: nat, file: seq<Byte>, n: nat, e: nat, x: U32)
    requires Inv(l0.space) && Inv(l.space) && d <= POOL && e <= POOL && Loadable(file) && n <= SegmentCount(file)
  {
    var j := LastOn(file, n, x);
    if j.Some? && Shares(l.space, e, d, Slot(PageOf(x)))
    then SegmentByte(l0, l, total, file, SegmentOf(file, j.value), e, x)
    else
      && Translate(l.space, e, PageOf(x)) == Translate(l0.space, e, PageOf(x))
      && ByteAt(l.space, l.bytes, e, x) == ByteAt(l0.space, l0.bytes, e, x)
  }

  ghost predicate Untouched(l0: Memory, l: Memory) {
    && |l.bytes| == |l0.bytes| && (forall f | f in l0.used :: f in l.used)
    && forall a | 0 <= a < |l.bytes| && FrameOfAddr(a) !in l.used :: l.bytes[a] == l0.bytes[a]
  }

  ghost predicate LoadedSoFar(l0: Memory, l: Memory, total: nat, d: nat, file: seq<Byte>, n: nat) {
    && Backed(l0, total) && Backed(l, total) && d <= POOL && Loadable(file) && n <= SegmentCount(file)
    && Reserved(l.space, l.used, total) && SlotsGrow(l0.space, d, l.space) && Untouched(l0, l)
    && (forall x: U32 | LastOn(file, n, x).Some? :: At(l.space, d, Slot(PageOf(x))).Table?)
    && forall e, x: U32 | 0 <= e <= POOL :: Seen(l0, l, total, d, file, n, e, x)
  }

  lemma NothingLoaded(l0: Memory, total: nat, d: nat, file: seq<Byte>)
    requires Backed(l0, total) && d <= POOL && Loadable(file) && Reserved(l0.space, l0.used, total)
    ensures LoadedSoFar(l0, l0, total, d, file, 0)
  {
    hide Loadable;
    hide Inv;
    hide ByteAt;
  }

  lemma LastStep(file: seq<Byte>, n: nat, x: U32)
    requires Loadable(file) && n < SegmentCount(file)
    ensures LastOn(file, n + 1, x)
         == if IsLoad(file, n) && OnPages(SegmentOf(file, n), x) then Some(n) else LastOn(file, n, x)
  {
    hide OnPages;
    hide IsLoad;
    hide SegmentOf;
    hide SegmentCount;
  }

  lemma SkipHeader(l0: Memory, l: Memory, total: nat, d: nat, file: seq<Byte>, n: nat)
    requires LoadedSoFar(l0, l, total, d, file, n) && n < SegmentCount(file) && !IsLoad(file, n)
    ensures LoadedSoFar(l0, l, total, d, file, n + 1)
  {
    forall x: U32 ensures LastOn(file, n + 1, x) == LastOn(file, n, x) {
      LastStep(file, n, x);
    }
    hide LastOn;
    hide Inv;
    hide ByteAt;
    hide IsLoad;
    hide SegmentOf;
    hide SegmentCount;
    hide Loadable;
    hide SegmentByte;
    var m := n + 1;
    forall e, x: U32 | 0 <= e <= POOL ensures Seen(l0, l, total, d, file, m, e, x) {
      assert Seen(l0, l, total, d, file, n, e, x);
    }
  }

  /** Sharing with `d` only grows, and only for `d` itself. */
  lemma SharesOn(s: Space, s': Space, d: nat, e: nat, i: Index)
    requires Sized(s) && Sized(s') && d <= POOL && e <= POOL && SlotsGrow(s, d, s')
    ensures Shares(s, e, d, i) ==> Shares(s', e, d, i)
    ensures Shares(s', e, d, i) && (e == d ==> At(s, d, i).Table?) ==> Shares(s, e, d, i)
  {
  }

  lemma GrowOn(s: Space, s': Space, s'': Space, d: nat)
    requires Sized(s) && Sized(s') && Sized(s'') && d <= POOL && SlotsGrow(s, d, s') && SlotsGrow(s', d, s'')
    ensures SlotsGrow(s, d, s'')
  {
  }

  lemma UntouchedOn(l0: Memory, l: Memory, total: nat, d: nat, file: seq<Byte>, seg: Segment)
    requires Backed(l, total) && d <= POOL && Fits(seg) && ContentsOk(file, seg) && SegmentStep(l, total, d, file, seg).Some?
    requires Untouched(l0, l) && Reserved(l.space, l.used, total)
    ensures Untouched(l0, SegmentStep(l, total, d, file, seg).value)
  {
    var l' := SegmentStep(l, total, d, file, seg).value;
    StepReserved(l, total, d, file, seg);
    assert |l'.bytes| == |l.bytes|;
    forall a | 0 <= a < |l'.bytes| && FrameOfAddr(a) !in l'.used ensures l'.bytes[a] == l0.bytes[a] {
      StepUntouched(l, total, d, file, seg, a);
    }
  }

  /** What a new frame holds around a segment is what it held before the load. */
  lemma SinceStart(l0: Memory, l: Memory, l': Memory, total: nat, file: seq<Byte>, seg: Segment, e: nat, x: U32)
    requires Inv(l'.space) && e <= POOL && ContentsOk(file, seg) && Untouched(l0, l) && SegmentByte(l, l', total, file, seg, e, x)
    ensures SegmentByte(l0, l', total, file, seg, e, x)
  {
    var f := Translate(l'.space, e, PageOf(x)).value;
    PhysParts(f, Offset(x), 0, 0);
    hide Translate;
    hide PhysAddr;
    hide FrameOfAddr;
    hide Inv;
    hide WantedByte;
  }

  lemma SeenStep(l0: Memory, l: Memory, total: nat, d: nat, file: seq<Byte>, n: nat, e: nat, x: U32)
    requires LoadedSoFar(l0, l, total, d, file, n) && n < SegmentCount(file) && IsLoad(file, n) && e <= POOL
    requires Fits(SegmentOf(file, n)) && ContentsOk(file, SegmentOf(file, n))
    requires SegmentStep(l, total, d, file, SegmentOf(file, n)).Some?
    ensures Seen(l0, SegmentStep(l, total, d, file, SegmentOf(file, n)).value, total, d, file, n + 1, e, x)
  {
    var seg := SegmentOf(file, n);
    var l' := SegmentStep(l, total, d, file, seg).value;
    LastStep(file, n, x);
    StepReserved(l, total, d, file, seg);
    SharesOn(l.space, l'.space, d, e, Slot(PageOf(x)));
    assert Seen(l0, l, total, d, file, n, e, x);
    assert LastOn(file, n, x).Some? ==> At(l.space, d, Slot(PageOf(x))).Table?;
    hide LastOn;
    hide Reserved;
    hide SlotsGrow;
    hide Inv;
    hide SegmentStep;
    hide SegmentOf;
    hide SegmentCount;
    hide Loadable;
    hide IsLoad;
    if Reaches(l'.space, d, seg, e, x) {
      StepReached(l, total, d, file, seg, e, x);
      hide SegmentByte;
      SinceStart(l0, l, l', total, file, seg, e, x);
    } else {
      StepKept(l, total, d, file, seg, e, x);
      hide ByteAt;
      hide Translate;
    }
  }

  lemma OneMoreSegment(l0: Memory, l: Memory, total: nat, d: nat, file: seq<Byte>, n: nat)
    requires LoadedSoFar(l0, l, total, d, file, n) && n < SegmentCount(file) && IsLoad(file, n)
    requires Fits(SegmentOf(file, n)) && ContentsOk(file, SegmentOf(file, n))
    requires SegmentStep(l, total, d, file, SegmentOf(file, n)).Some?
    ensures LoadedSoFar(l0, SegmentStep(l, total, d, file, SegmentOf(file, n)).value, total, d, file, n + 1)
  {
    var seg := SegmentOf(file, n);
    var l' := SegmentStep(l, total, d, file, seg).value;
    StepReserved(l, total, d, file, seg);
    UntouchedOn(l0, l, total, d, file, seg);
    GrowOn(l0.space, l.space, l'.space, d);
    var m := n + 1;
    forall e, x: U32 | 0 <= e <= POOL ensures Seen(l0, l', total, d, file, m, e, x) {
      SeenStep(l0, l, total, d, file, n, e, x);
    }
    forall x: U32 | LastOn(file, n + 1, x).Some? ensures At(l'.space, d, Slot(PageOf(x))).Table? {
      LastStep(file, n, x);
      if OnPages(seg, x) {
        TableMade(l, total, d, file, seg, x);
      }
    }
    hide SegmentStep;
    hide Seen;
    hide Inv;
    hide LastOn;
    hide Reserved;
    hide SlotsGrow;
    hide Untouched;
  }

  lemma TableMade(l: Memory, total: nat, d: nat, file: seq<Byte>, seg: Segment, x: U32)
    requires Backed(l, total) && d <= POOL && Fits(seg) && ContentsOk(file, seg) && SegmentStep(l, total, d, file, seg).Some?
    requires OnPages(seg, x)
    ensures At(SegmentStep(l, total, d, file, seg).value.space, d, Slot(PageOf(x))).Table?
  {
    var l' := SegmentStep(l, total, d, file, seg).value;
    var frames := StepProgress(l, total, d, file, seg);
    hide SegmentStep;
    hide Progress;
    hide Room;
    hide Stored;
    hide SegmentPages;
    assert Translate(l'.space, d, PageOf(x)) == Some(frames[PageOf(x) - FirstPage(seg)]);
  }

  lemma {:induction false} SegmentsSeen(l0: Memory, l: Memory, total: nat, d: nat, file: seq<Byte>, n: nat)
    requires LoadedSoFar(l0, l, total, d, file, n) && SegmentsLoaded(l, total, d, file, n).Some?
    ensures LoadedSoFar(l0, SegmentsLoaded(l, total, d, file, n).value, total, d, file, SegmentCount(file))
    decreases SegmentCount(file) - n
  {
    hide LoadedSoFar;
    hide SegmentsLoaded;
    hide SegmentStep;
    hide SegmentOf;
    hide Fits;
    hide ContentsOk;
    SoFarFacts(l0, l, total, d, file, n);
    if n == SegmentCount(file) {
      SegmentsDone(l, total, d, file);
    } else {
      SegmentsStep(l, total, d, file, n);
      if IsLoad(file, n) {
        OneMoreSegment(l0, l, total, d, file, n);
        SegmentsSeen(l0, SegmentStep(l, total, d, file, SegmentOf(file, n)).value, total, d, file, n + 1);
      } else {
        SkipHeader(l0, l, total, d, file, n);
        SegmentsSeen(l0, l, total, d, file, n + 1);
      }
    }
  }

  lemma SoFarFacts(l0: Memory, l: Memory, total: nat, d: nat, file: seq<Byte>, n: nat)
    requires LoadedSoFar(l0, l, total, d, file, n)
    ensures Backed(l0, total) && Backed(l, total) && d <= POOL && Loadable(file) && n <= SegmentCount(file)
    ensures SlotsGrow(l0.space, d, l.space) && |l.bytes| == |l0.bytes|
    ensures forall e, x: U32 | 0 <= e <= POOL :: Seen(l0, l, total, d, file, n, e, x)
  {
    hide Seen;
    hide Inv;
    hide SlotsGrow;
  }

  // ----- a load -----

  /** The state of a kernel that has a boot stack and keeps track of its frames. */
  ghost predicate Startable(l: Memory, total: nat, from: Page, count: nat) {
    && Backed(l, total) && from + count <= 0x10_0000 && BootStackMapped(l.space, from, count)
    && l.space.active <= l.space.nextDir && Reserved(l.space, l.used, total)
  }

  /** Whose view the new directory starts with. */
  function Origin(s: Space, e: nat, vp: Page): nat {
    if e != s.nextDir + 1 then e else if Slot(vp) == STACK_SLOT then s.active else 0
  }

  lemma CreatedReserved(l: Memory, total: nat, from: Page, count: nat)
    requires Startable(l, total, from, count) && Create(l.space, from, count).Some?
    ensures Inv(Create(l.space, from, count).value) && Reserved(Create(l.space, from, count).value, l.used, total)
  {
    CreateShares(l.space, from, count);
    CreateTranslates(l.space, from, count);
    hide Create;
    hide BootStackMapped;
    hide Inv;
  }

  lemma FileSeen(l: Memory, total: nat, from: Page, count: nat, file: seq<Byte>)
    requires Startable(l, total, from, count) && Loadable(file) && FileLoaded(l, total, from, count, file).Some?
    ensures Create(l.space, from, count).Some?
    ensures LoadedSoFar(l.(space := Create(l.space, from, count).value), FileLoaded(l, total, from, count, file).value,
                        total, l.space.nextDir + 1, file, SegmentCount(file))
  {
    FileSteps(l, total, from, count, file);
    CreatedReserved(l, total, from, count);
    var l1 := l.(space := Create(l.space, from, count).value);
    hide FileLoaded;
    hide Create;
    hide LoadedSoFar;
    hide SegmentsLoaded;
    hide Reserved;
    NothingLoaded(l1, total, l.space.nextDir + 1, file);
    SegmentsSeen(l1, l1, total, l.space.nextDir + 1, file, 0);
  }

  /** What every directory shows at every address after a load: where it holds a table of the new
      directory and a segment lies, the last such segment's frame; anywhere else what it showed before,
      the new one what the kernel did, and in the stack's slot whoever loads. */
  lemma LoadMeans(l: Memory, total: nat, from: Page, count: nat, file: seq<Byte>, e: nat, x: U32)
    requires Startable(l, total, from, count) && Loadable(file) && FileLoaded(l, total, from, count, file).Some?
    requires e <= POOL
    ensures l.space.nextDir < POOL && Backed(FileLoaded(l, total, from, count, file).value, total)
    ensures Origin(l.space, e, PageOf(x)) <= POOL
    ensures var l', d, j := FileLoaded(l, total, from, count, file).value, l.space.nextDir + 1, LastOn(file, SegmentCount(file), x);
      if j.Some? && Shares(l'.space, e, d, Slot(PageOf(x)))
      then SegmentByte(l, l', total, file, SegmentOf(file, j.value), e, x)
      else ByteAt(l'.space, l'.bytes, e, x) == ByteAt(l.space, l.bytes, Origin(l.space, e, PageOf(x)), x)
  {
    FileSteps(l, total, from, count, file);
    FileSeen(l, total, from, count, file);
    var l1 := l.(space := Create(l.space, from, count).value);
    var l' := FileLoaded(l, total, from, count, file).value;
    var d := l.space.nextDir + 1;
    SoFarFacts(l1, l', total, d, file, SegmentCount(file));
    CreateTranslates(l.space, from, count);
    hide LoadedSoFar;
    hide FileLoaded;
    hide SegmentsLoaded;
    hide Create;
    hide BootStackMapped;
    hide Reserved;
    hide SlotsGrow;
    hide LastOn;
    hide SegmentOf;
    hide SegmentCount;
    hide Loadable;
    assert Seen(l1, l', total, d, file, SegmentCount(file), e, x);
    hide Seen;
    hide Inv;
    SeenIs(l1, l', total, d, file, SegmentCount(file), e, x);
    assert Translate(l1.space, e, PageOf(x)) == Translate(l.space, Origin(l.space, e, PageOf(x)), PageOf(x));
  }

  lemma SeenIs(l0: Memory, l: Memory, total: nat, d: nat, file: seq<Byte>, n: nat, e: nat, x: U32)
    requires Inv(l0.space) && Inv(l.space) && d <= POOL && e <= POOL && Loadable(file) && n <= SegmentCount(file)
    requires Seen(l0, l, total, d, file, n, e, x)
    ensures var j := LastOn(file, n, x);
      if j.Some? && Shares(l.space, e, d, Slot(PageOf(x)))
      then SegmentByte(l0, l, total, file, SegmentOf(file, j.value), e, x)
      else ByteAt(l.space, l.bytes, e, x) == ByteAt(l0.space, l0.bytes, e, x)
  {
    hide ByteAt;
    hide Translate;
    hide Inv;
  }

  /** For a file whose segments lie in slots the kernel lacks, and not on the stack, no other directory
      shows anything different. */
  lemma OthersKept(l: Memory, total: nat, from: Page, count: nat, file: seq<Byte>, e: nat, x: U32)
    requires Startable(l, total, from, count) && Loadable(file) && FileLoaded(l, total, from, count, file).Some?
    requires e <= POOL && e != l.space.nextDir + 1
    requires LastOn(file, SegmentCount(file), x).Some? ==> At(l.space, 0, Slot(PageOf(x))).Absent? && Slot(PageOf(x)) != STACK_SLOT
    ensures Backed(FileLoaded(l, total, from, count, file).value, total)
    ensures var l' := FileLoaded(l, total, from, count, file).value;
      ByteAt(l'.space, l'.bytes, e, x) == ByteAt(l.space, l.bytes, e, x)
  {
    var s1 := Create(l.space, from, count);
    FileSteps(l, total, from, count, file);
    FileSeen(l, total, from, count, file);
    var l' := FileLoaded(l, total, from, count, file).value;
    var d, i := l.space.nextDir + 1, Slot(PageOf(x));
    SoFarFacts(l.(space := s1.value), l', total, d, file, SegmentCount(file));
    CreateCells(l.space, from, count);
    LoadMeans(l, total, from, count, file, e, x);
    hide FileLoaded;
    hide LoadedSoFar;
    hide Seen;
    hide SegmentsLoaded;
    hide Create;
    hide BootStackMapped;
    hide Reserved;
    hide LastOn;
    hide SegmentByte;
    hide ByteAt;
    assert At(s1.value, 0, i) == At(l.space, 0, i);
    SharesOn(s1.value, l'.space, d, e, i);
  }

  // ----- which segments a load shows -----

  /** The address space shows every byte of the segment. */
  ghost predicate Shown(l: Memory, d: nat, file: seq<Byte>, seg: Segment)
    requires Inv(l.space) && d <= POOL && ContentsOk(file, seg)
  {
    forall x: U32 | InBytes(seg, x) :: ByteAt(l.space, l.bytes, d, x) == Some(WantedByte(file, seg, x))
  }

  /** The last segment on the page of this byte of segment `i` has the same byte there. */
  ghost predicate ShowsThrough(file: seq<Byte>, i: nat, x: U32)
    requires Loadable(file) && i < SegmentCount(file) && IsLoad(file, i) && InBytes(SegmentOf(file, i), x)
  {
    var j := LastOn(file, SegmentCount(file), x);
    && j.Some? && InBytes(SegmentOf(file, j.value), x)
    && WantedByte(file, SegmentOf(file, j.value), x) == WantedByte(file, SegmentOf(file, i), x)
  }

  ghost predicate Undisturbed(file: seq<Byte>, i: nat)
    requires Loadable(file) && i < SegmentCount(file) && IsLoad(file, i)
  {
    forall x: U32 | InBytes(SegmentOf(file, i), x) :: ShowsThrough(file, i, x)
  }

  ghost predicate ShownFrom(l: Memory, total: nat, from: Page, count: nat, file: seq<Byte>, i: nat, bytes: seq<Byte>)
    requires Backed(l, total) && |bytes| == |l.bytes| && from + count <= 0x10_0000 && l.space.nextDir < POOL
    requires Loadable(file) && i < SegmentCount(file) && IsLoad(file, i)
  {
    var r := FileLoaded(l.(bytes := bytes), total, from, count, file);
    r.Some? && Inv(r.value.space) && Shown(r.value, l.space.nextDir + 1, file, SegmentOf(file, i))
  }

  lemma {:induction false} BytesIrrelevant(l: Memory, bytes: seq<Byte>, total: nat, d: nat, file: seq<Byte>, i: nat)
    requires Backed(l, total) && |bytes| == |l.bytes| && d <= POOL && Loadable(file) && i <= SegmentCount(file)
    ensures SegmentsLoaded(l, total, d, file, i).Some? <==> SegmentsLoaded(l.(bytes := bytes), total, d, file, i).Some?
    decreases SegmentCount(file) - i
  {
    var k := l.(bytes := bytes);
    hide SegmentStep;
    hide SegmentsLoaded;
    hide SegmentOf;
    hide Fits;
    hide ContentsOk;
    hide Inv;
    if i == SegmentCount(file) {
      SegmentsDone(l, total, d, file);
      SegmentsDone(k, total, d, file);
    } else {
      SegmentsStep(l, total, d, file, i);
      SegmentsStep(k, total, d, file, i);
      if !IsLoad(file, i) {
        BytesIrrelevant(l, bytes, total, d, file, i + 1);
      } else {
        var bytes' := StepIrrelevant(l, bytes, total, d, file, SegmentOf(file, i));
        if SegmentStep(l, total, d, file, SegmentOf(file, i)).Some? {
          BytesIrrelevant(SegmentStep(l, total, d, file, SegmentOf(file, i)).value, bytes', total, d, file, i + 1);
        }
      }
    }
  }

  lemma StepIrrelevant(l: Memory, bytes: seq<Byte>, total: nat, d: nat, file: seq<Byte>, seg: Segment) returns (bytes': seq<Byte>)
    requires Backed(l, total) && |bytes| == |l.bytes| && d <= POOL && Fits(seg) && ContentsOk(file, seg)
    ensures var r, q := SegmentStep(l, total, d, file, seg), SegmentStep(l.(bytes := bytes), total, d, file, seg);
      && (r.Some? <==> q.Some?)
      && (r.Some? ==> |bytes'| == |r.value.bytes| && q.value == r.value.(bytes := bytes'))
  {
    SegmentTakes(l, total, d, file, seg);
    SegmentTakes(l.(bytes := bytes), total, d, file, seg);
    hide MapFresh;
    hide Stored;
    hide Progress;
    hide Room;
    hide MapsRange;
    hide Inv;
    var q := SegmentStep(l.(bytes := bytes), total, d, file, seg);
    bytes' := if q.Some? then q.value.bytes else [];
  }

  lemma FileIrrelevant(l: Memory, bytes: seq<Byte>, total: nat, from: Page, count: nat, file: seq<Byte>)
    requires Backed(l, total) && |bytes| == |l.bytes| && from + count <= 0x10_0000 && Loadable(file)
    ensures FileLoaded(l, total, from, count, file).Some? <==> FileLoaded(l.(bytes := bytes), total, from, count, file).Some?
  {
    FileSteps(l, total, from, count, file);
    FileSteps(l.(bytes := bytes), total, from, count, file);
    var c := Create(l.space, from, count);
    hide FileLoaded;
    hide SegmentsLoaded;
    hide Create;
    hide Loadable;
    if c.Some? {
      BytesIrrelevant(l.(space := c.value), bytes, total, c.value.nextDir, file, 0);
    }
  }

  lemma SomeLast(file: seq<Byte>, i: nat, x: U32)
    requires Loadable(file) && i < SegmentCount(file) && IsLoad(file, i) && InBytes(SegmentOf(file, i), x)
    ensures LastOn(file, SegmentCount(file), x).Some?
  {
    BytesOnPages(SegmentOf(file, i), x);
    hide OnPages;
  }

  /** What the new address space shows of a byte of segment `i`. */
  lemma ByteShown(l: Memory, total: nat, from: Page, count: nat, file: seq<Byte>, i: nat, x: U32)
    requires Startable(l, total, from, count) && Loadable(file) && FileLoaded(l, total, from, count, file).Some?
    requires i < SegmentCount(file) && IsLoad(file, i) && InBytes(SegmentOf(file, i), x)
    ensures l.space.nextDir < POOL && Backed(FileLoaded(l, total, from, count, file).value, total)
    ensures LastOn(file, SegmentCount(file), x).Some?
    ensures SegmentByte(l, FileLoaded(l, total, from, count, file).value, total, file,
                        SegmentOf(file, LastOn(file, SegmentCount(file), x).value), l.space.nextDir + 1, x)
  {
    hide FileLoaded;
    hide LastOn;
    hide Startable;
    hide Inv;
    hide Reserved;
    hide BootStackMapped;
    hide SegmentByte;
    hide LoadedSoFar;
    hide Seen;
    hide SegmentsLoaded;
    hide Create;
    SomeLast(file, i, x);
    StartableFacts(l, total, from, count);
    LoadedBacked(l, total, from, count, file);
    LoadMeans(l, total, from, count, file, l.space.nextDir + 1, x);
    FileSeen(l, total, from, count, file);
    TableThere(l.(space := Create(l.space, from, count).value), FileLoaded(l, total, from, count, file).value,
               total, l.space.nextDir + 1, file, SegmentCount(file), x);
  }

  lemma TableThere(l0: Memory, l: Memory, total: nat, d: nat, file: seq<Byte>, n: nat, x: U32)
    requires LoadedSoFar(l0, l, total, d, file, n) && LastOn(file, n, x).Some?
    ensures Inv(l.space) && d <= POOL && Shares(l.space, d, d, Slot(PageOf(x)))
  {
    hide Seen;
    hide Reserved;
    hide SlotsGrow;
    hide LastOn;
  }

  /** Over every memory there can be before it, a load shows all of a segment if and only if the last
      segment on each of its bytes' pages has that byte too. */
  lemma ShownExactly(l: Memory, total: nat, from: Page, count: nat, file: seq<Byte>, i: nat)
    requires Startable(l, total, from, count) && Loadable(file) && FileLoaded(l, total, from, count, file).Some?
    requires i < SegmentCount(file) && IsLoad(file, i)
    ensures l.space.nextDir < POOL
    ensures (forall bytes: seq<Byte> | |bytes| == |l.bytes| :: ShownFrom(l, total, from, count, file, i, bytes))
            <==> Undisturbed(file, i)
  {
    FileSteps(l, total, from, count, file);
    hide SegmentsLoaded;
    hide FileLoaded;
    hide Create;
    hide Startable;
    if Undisturbed(file, i) {
      forall bytes: seq<Byte> | |bytes| == |l.bytes| ensures ShownFrom(l, total, from, count, file, i, bytes) {
        UndisturbedIsShown(l, total, from, count, file, i, bytes);
      }
    } else {
      var x: U32 :| InBytes(SegmentOf(file, i), x) && !ShowsThrough(file, i, x);
      var bytes := DisturbedIsNot(l, total, from, count, file, i, x);
    }
  }

  lemma UndisturbedIsShown(l: Memory, total: nat, from: Page, count: nat, file: seq<Byte>, i: nat, bytes: seq<Byte>)
    requires Startable(l, total, from, count) && Loadable(file) && FileLoaded(l, total, from, count, file).Some?
    requires i < SegmentCount(file) && IsLoad(file, i) && Undisturbed(file, i) && |bytes| == |l.bytes| && l.space.nextDir < POOL
    ensures ShownFrom(l, total, from, count, file, i, bytes)
  {
    hide FileLoaded;
    hide LastOn;
    hide Startable;
    hide Inv;
    hide Reserved;
    hide BootStackMapped;
    StartableFacts(l, total, from, count);
    var k := l.(bytes := bytes);
    FileIrrelevant(l, bytes, total, from, count, file);
    StartableAnyway(l, bytes, total, from, count);
    LoadedBacked(k, total, from, count, file);
    var l' := FileLoaded(k, total, from, count, file).value;
    forall x: U32 | InBytes(SegmentOf(file, i), x)
      ensures ByteAt(l'.space, l'.bytes, l.space.nextDir + 1, x) == Some(WantedByte(file, SegmentOf(file, i), x))
    {
      ByteShown(k, total, from, count, file, i, x);
      assert ShowsThrough(file, i, x);
      LastSegment(file, x);
      hide ByteAt;
      hide SegmentOf;
      hide SegmentCount;
      hide Loadable;
      hide Translate;
      hide WantedByte;
    }
  }

  lemma LastSegment(file: seq<Byte>, x: U32)
    requires Loadable(file) && LastOn(file, SegmentCount(file), x).Some?
    ensures ContentsOk(file, SegmentOf(file, LastOn(file, SegmentCount(file), x).value))
  {
    hide OnPages;
  }

  lemma StartableFacts(l: Memory, total: nat, from: Page, count: nat)
    requires Startable(l, total, from, count)
    ensures Backed(l, total) && from + count <= 0x10_0000
  {
    hide Inv;
  }

  lemma StartableAnyway(l: Memory, bytes: seq<Byte>, total: nat, from: Page, count: nat)
    requires Startable(l, total, from, count) && |bytes| == |l.bytes|
    ensures Startable(l.(bytes := bytes), total, from, count)
  {
    hide Inv;
    hide Reserved;
    hide BootStackMapped;
  }

  lemma LoadedBacked(l: Memory, total: nat, from: Page, count: nat, file: seq<Byte>)
    requires Startable(l, total, from, count) && Loadable(file) && FileLoaded(l, total, from, count, file).Some?
    ensures l.space.nextDir < POOL && Backed(FileLoaded(l, total, from, count, file).value, total)
  {
    FileSteps(l, total, from, count, file);
    hide FileLoaded;
    hide SegmentsLoaded;
    hide Create;
  }

  /** A segment that has another byte there, or none and the frame held another one before. */
  lemma OtherByte(l: Memory, l': Memory, total: nat, file: seq<Byte>, own: Segment, last: Segment, d: nat, x: U32)
    requires Inv(l'.space) && d <= POOL && ContentsOk(file, own) && ContentsOk(file, last) && InBytes(own, x)
    requires SegmentByte(l, l', total, file, last, d, x)
    requires InBytes(last, x) ==> WantedByte(file, last, x) != WantedByte(file, own, x)
    requires forall a | 0 <= a < |l.bytes| :: l.bytes[a] != WantedByte(file, own, x)
    ensures !Shown(l', d, file, own)
  {
    hide Inv;
    hide Translate;
    hide PhysAddr;
    hide WantedByte;
    hide ByteAt;
    assert ByteAt(l'.space, l'.bytes, d, x) != Some(WantedByte(file, own, x));
  }

  lemma DisturbedIsNot(l: Memory, total: nat, from: Page, count: nat, file: seq<Byte>, i: nat, x: U32) returns (bytes: seq<Byte>)
    requires Startable(l, total, from, count) && Loadable(file) && FileLoaded(l, total, from, count, file).Some?
    requires i < SegmentCount(file) && IsLoad(file, i) && InBytes(SegmentOf(file, i), x) && !ShowsThrough(file, i, x)
    requires l.space.nextDir < POOL
    ensures |bytes| == |l.bytes| && !ShownFrom(l, total, from, count, file, i, bytes)
  {
    hide FileLoaded;
    hide LastOn;
    hide Startable;
    hide Inv;
    hide Reserved;
    hide BootStackMapped;
    hide SegmentByte;
    hide Shown;
    hide WantedByte;
    hide SegmentsLoaded;
    StartableFacts(l, total, from, count);
    var w := if WantedByte(file, SegmentOf(file, i), x) == 0 then 1 else 0;
    bytes := seq(|l.bytes|, _ => w);
    var k := l.(bytes := bytes);
    FileIrrelevant(l, bytes, total, from, count, file);
    StartableAnyway(l, bytes, total, from, count);
    ByteShown(k, total, from, count, file, i, x);
    LastSegment(file, x);
    var l' := FileLoaded(k, total, from, count, file).value;
    OtherByte(k, l', total, file, SegmentOf(file, i), SegmentOf(file, LastOn(file, SegmentCount(file), x).value), l.space.nextDir + 1, x);
  }

  /** Segments that keep to pages of their own are all shown. */
  lemma ApartIsUndisturbed(file: seq<Byte>, i: nat)
    requires Loadable(file) && i < SegmentCount(file) && IsLoad(file, i)
    requires forall j, x: U32 | i < j < SegmentCount(file) && IsLoad(file, j) && InBytes(SegmentOf(file, i), x) ::
      !OnPages(SegmentOf(file, j), x)
    ensures Undisturbed(file, i)
  {
    forall x: U32 | InBytes(SegmentOf(file, i), x) ensures ShowsThrough(file, i, x) {
      BytesOnPages(SegmentOf(file, i), x);
      hide OnPages;
      var j := LastOn(file, SegmentCount(file), x);
      assert j == Some(i);
    }
  }
}
