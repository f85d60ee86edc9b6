/** Loading as part of the runs of `MmapRuns`: a load is a creation followed by steps that map one
    segment each, so that no range handed out by `mmap` is lost by it. */
module ElfRuns {
  import opened Bytes
  import opened Paging
  import opened FreshMapping
  import opened MmapRuns
  import opened ElfLoad

  /** Every segment lies in slots the kernel lacks, neither the stack's nor the heap's. */
  ghost predicate RangesOk(s: Space, file: seq<Byte>)
    requires Sized(s) && Loadable(file)
  {
    forall i | 0 <= i < SegmentCount(file) && IsLoad(file, i) ::
      LoadRange(s, FirstPage(SegmentOf(file, i)), SegmentPages(SegmentOf(file, i)))
  }

  lemma RangesStayOk(m: Machine, p: nat, base: Page, n: nat, m': Machine, file: seq<Byte>)
    requires Good(m) && Loads(m, p, base, n, m') && Loadable(file) && RangesOk(m.space, file)
    ensures Inv(m'.space) && RangesOk(m'.space, file)
  {
    var frames := LoadProgress(m, p, base, n, m');
    var d := m.procs[p].dir;
    ProgressFacts(m.space, m.used, m.total, d, PagesFrom(base, n), m'.space, m'.used, frames);
    hide Progress;
    hide Good;
    hide Loads;
    hide Slot;
    hide HeapSlot;
    hide SegmentOf;
    hide SegmentPages;
    hide SegmentCount;
    hide FirstPage;
    hide IsLoad;
    hide Fits;
    forall i | 0 <= i < SegmentCount(file) && IsLoad(file, i)
      ensures LoadRange(m'.space, FirstPage(SegmentOf(file, i)), SegmentPages(SegmentOf(file, i)))
    {
      assert LoadRange(m.space, FirstPage(SegmentOf(file, i)), SegmentPages(SegmentOf(file, i)));
    }
  }

  ghost predicate KeepsGrants(m: Machine, m': Machine) {
    Good(m) && Good(m') && forall h | Live(m, h) :: Live(m', h)
  }

  lemma SegmentKeeps(m: Machine, p: nat, base: Page, n: nat, m': Machine)
    requires Good(m) && Loads(m, p, base, n, m')
    ensures KeepsGrants(m, m')
  {
    assert MmapRuns.StepTo(m, LoadEvent(p, base, n), m');
    StepStaysGood(m, LoadEvent(p, base, n), m');
  }

  lemma KeepsItself(m: Machine)
    requires Good(m)
    ensures KeepsGrants(m, m)
  {
  }

  lemma KeepsThrough(m: Machine, m': Machine, m'': Machine)
    requires KeepsGrants(m, m') && KeepsGrants(m', m'')
    ensures KeepsGrants(m, m'')
  {
    hide Live;
  }

  /** The machine's page tables and frames with some content of memory. */
  function With(m: Machine, bytes: seq<Byte>): Memory { Memory(m.space, m.used, bytes) }

  lemma WithBacked(m: Machine, bytes: seq<Byte>)
    requires Good(m) && |bytes| == m.total * 4096
    ensures Backed(With(m, bytes), m.total)
  {
  }

  lemma AfterSegment(m: Machine, bytes: seq<Byte>, p: nat, file: seq<Byte>, i: nat) returns (m': Machine, bytes': seq<Byte>)
    requires Good(m) && p < |m.procs| && m.procs[p].dir <= POOL && Backed(With(m, bytes), m.total)
    requires Loadable(file) && RangesOk(m.space, file) && i < SegmentCount(file) && IsLoad(file, i)
    requires SegmentStep(With(m, bytes), m.total, m.procs[p].dir, file, SegmentOf(file, i)).Some?
    ensures SegmentStep(With(m, bytes), m.total, m.procs[p].dir, file, SegmentOf(file, i)) == Some(With(m', bytes'))
    ensures m' == m.(space := m'.space, used := m'.used) && Good(m') && KeepsGrants(m, m') && RangesOk(m'.space, file)
  {
    var seg := SegmentOf(file, i);
    var r := SegmentStep(With(m, bytes), m.total, m.procs[p].dir, file, seg).value;
    m', bytes' := m.(space := r.space, used := r.used), r.bytes;
    assert LoadRange(m.space, FirstPage(seg), SegmentPages(seg));
    hide LoadRange;
    hide MapFresh;
    hide Stored;
    assert Loads(m, p, FirstPage(seg), SegmentPages(seg), m');
    hide Loads;
    hide RangesOk;
    hide Good;
    hide Live;
    SegmentKeeps(m, p, FirstPage(seg), SegmentPages(seg), m');
    RangesStayOk(m, p, FirstPage(seg), SegmentPages(seg), m', file);
  }

  /** Each segment loaded is a step of those runs. */
  lemma {:induction false} SegmentsKeepGrants(m: Machine, bytes: seq<Byte>, p: nat, file: seq<Byte>, i: nat)
    requires Good(m) && p < |m.procs| && m.procs[p].dir <= POOL && Backed(With(m, bytes), m.total)
    requires Loadable(file) && RangesOk(m.space, file) && i <= SegmentCount(file)
    requires SegmentsLoaded(With(m, bytes), m.total, m.procs[p].dir, file, i).Some?
    ensures var r := SegmentsLoaded(With(m, bytes), m.total, m.procs[p].dir, file, i).value;
      KeepsGrants(m, m.(space := r.space, used := r.used))
    decreases SegmentCount(file) - i
  {
    hide Good;
    hide Live;
    hide KeepsGrants;
    hide RangesOk;
    hide Inv;
    hide SegmentsLoaded;
    hide SegmentStep;
    hide SegmentOf;
    hide Fits;
    hide ContentsOk;
    var d := m.procs[p].dir;
    ProcFacts(m, p);
    if i == SegmentCount(file) {
      SegmentsDone(With(m, bytes), m.total, d, file);
      KeepsItself(m);
      assert m.(space := m.space, used := m.used) == m;
    } else {
      SegmentsStep(With(m, bytes), m.total, d, file, i);
      if !IsLoad(file, i) {
        SegmentsKeepGrants(m, bytes, p, file, i + 1);
      } else {
        var m', bytes' := AfterSegment(m, bytes, p, file, i);
        SegmentsKeepGrants(m', bytes', p, file, i + 1);
        var r := SegmentsLoaded(With(m', bytes'), m.total, d, file, i + 1).value;
        KeepsThrough(m, m', m.(space := r.space, used := r.used));
      }
    }
  }

  /** A whole load keeps the invariant of those runs and every range handed out, for a file whose segments
      stay out of the addresses where heaps grow. */
  lemma LoadKeepsGrants(m: Machine, bytes: seq<Byte>, file: seq<Byte>)
    requires Good(m) && |bytes| == m.total * 4096 && Loadable(file) && RangesOk(m.space, file)
    ensures Backed(With(m, bytes), m.total)
    ensures var r := FileLoaded(With(m, bytes), m.total, m.stackFrom, m.stackCount, file);
      r.Some? ==>
        KeepsGrants(m, m.(space := r.value.space, used := r.value.used,
                          procs := m.procs + [Proc(m.space.nextDir + 1, HEAP_PAGE)]))
  {
    WithBacked(m, bytes);
    FileSteps(With(m, bytes), m.total, m.stackFrom, m.stackCount, file);
    if FileLoaded(With(m, bytes), m.total, m.stackFrom, m.stackCount, file).Some? {
      var m1 := Spawn(m).value;
      SpawnCall(m);
      SpawnView(m);
      assert RangesOk(m1.space, file) by {
        forall i | 0 <= i < SegmentCount(file) && IsLoad(file, i)
          ensures LoadRange(m1.space, FirstPage(SegmentOf(file, i)), SegmentPages(SegmentOf(file, i)))
        {
          assert LoadRange(m.space, FirstPage(SegmentOf(file, i)), SegmentPages(SegmentOf(file, i)));
        }
      }
      hide SegmentsLoaded;
      hide FileLoaded;
      hide Live;
      hide RangesOk;
      SegmentsKeepGrants(m1, bytes, |m.procs|, file, 0);
    }
  }
}
