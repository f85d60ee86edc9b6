/** Mapping a list of virtual pages, each to a frame just taken from the allocator: the loop shared by
    `mmap`, the ELF loader and the process stack. */
module FreshMapping {
  import opened Bytes
  import opened Frames
  import opened Paging

  /** `frames` are the frames mapped so far, in order; the loop ends early when memory is out and the
      kernel panics when page tables are. */
  datatype Mapped = Mapped(space: Space, used: set<nat>, frames: seq<nat>, panic: bool)

  ghost function MapFresh(space: Space, used: set<nat>, total: nat, d: nat, pages: seq<Page>, frames: seq<nat>): Mapped
    requires Inv(space) && d <= POOL && |frames| <= |pages| && total <= 0x10_0000
    ensures var r := MapFresh(space, used, total, d, pages, frames);
      Inv(r.space) && |frames| <= |r.frames| <= |pages|
    decreases |pages| - |frames|
  {
    if |frames| == |pages| then Mapped(space, used, frames, false)
    else
      match LowestFree(used, total)
      case None => Mapped(space, used, frames, false)
      case Some(f) =>
        // a frame at address 0 cannot be told from "no frame"
        if f == 0 then Mapped(space, used + {0}, frames, false)
        else
          match MapIn(space, d, pages[|frames|], f, 3)
          case None => Mapped(space, used + {f}, frames, true)
          case Some(space') =>
            MapInTranslates(space, d, pages[|frames|], f, 3);
            MapFresh(space', used + {f}, total, d, pages, frames + [f])
  }

  ghost predicate Distinct<T>(s: seq<T>) {
    forall i, j | 0 <= i < j < |s| :: s[i] != s[j]
  }

  /** Whatever any directory can reach is taken, or lies outside the memory the allocator manages. */
  ghost predicate Reserved(s: Space, used: set<nat>, total: nat)
    requires Inv(s)
  {
    forall e, vq: Page | 0 <= e <= POOL && Translate(s, e, vq).Some? ::
      var f := Translate(s, e, vq).value; f in used || f >= total
  }

  /** What mapping the first `|frames|` pages onto `frames` means: the frames are new and different,
      each page translates to its frame, and every other translation is as it was, except through
      slots shared with `d`. */
  ghost predicate Progress(s0: Space, u0: set<nat>, total: nat, d: nat, pages: seq<Page>,
                           s: Space, u: set<nat>, frames: seq<nat>)
  {
    && Inv(s0) && Inv(s) && d <= POOL && |frames| <= |pages|
    && s.nextDir == s0.nextDir && s.active == s0.active
    && FramesTaken(u0, total, u, frames)
    && SlotsGrow(s0, d, s)
    && (forall j | 0 <= j < |frames| :: Translate(s, d, pages[j]) == Some(frames[j]))
    && forall e, vq: Page | 0 <= e <= POOL && (vq !in pages[..|frames|] || !Shares(s, e, d, Slot(vq)))
      :: Translate(s, e, vq) == Translate(s0, e, vq)
  }

  ghost predicate FramesTaken(u0: set<nat>, total: nat, u: set<nat>, frames: seq<nat>) {
    && Distinct(frames)
    && (forall j | 0 <= j < |frames| :: 0 < frames[j] < total && frames[j] !in u0 && frames[j] in u)
    && (forall f: nat :: f in u <==> f in u0 || f in frames)
    && |u| == |u0| + |frames|
  }

  /** Only `d` gains slots, and nothing new is shared with it. */
  ghost predicate SlotsGrow(s0: Space, d: nat, s: Space)
    requires Sized(s0) && Sized(s) && d <= POOL
  {
    && (forall e, i: Index | 0 <= e <= POOL && (e != d || At(s0, e, i).Table?) :: At(s, e, i) == At(s0, e, i))
    && forall e, i: Index | 0 <= e <= POOL && e != d && Shares(s, e, d, i) :: Shares(s0, e, d, i)
  }

  lemma TakeOne(u0: set<nat>, total: nat, u: set<nat>, frames: seq<nat>, f: nat)
    requires FramesTaken(u0, total, u, frames) && f !in u && 0 < f < total
    ensures FramesTaken(u0, total, u + {f}, frames + [f])
  {
    assert forall j | 0 <= j < |frames| :: frames[j] in u;
  }

  lemma ProgressStep(s0: Space, u0: set<nat>, total: nat, d: nat, pages: seq<Page>,
                     s: Space, u: set<nat>, frames: seq<nat>, f: Page)
    requires Progress(s0, u0, total, d, pages, s, u, frames) && |frames| < |pages| && Distinct(pages)
    requires f !in u && 0 < f < total && MapIn(s, d, pages[|frames|], f, 3).Some?
    ensures Progress(s0, u0, total, d, pages, MapIn(s, d, pages[|frames|], f, 3).value, u + {f}, frames + [f])
  {
    var n, vp := |frames|, pages[|frames|];
    var s' := MapIn(s, d, vp, f, 3).value;
    MapInTranslates(s, d, vp, f, 3);
    MapInSlots(s, d, vp, f, 3);
    TakeOne(u0, total, u, frames, f);
    assert Translate(s', d, vp) == Some(f);
    forall j | 0 <= j < n + 1 ensures Translate(s', d, pages[j]) == Some((frames + [f])[j]) {
      if j < n {
        assert pages[j] != vp;
      }
    }
    forall e, vq: Page | 0 <= e <= POOL && (vq !in pages[..n + 1] || !Shares(s', e, d, Slot(vq)))
      ensures Translate(s', e, vq) == Translate(s0, e, vq)
    {
      assert pages[..n + 1] == pages[..n] + [vp];
      UnsharedBefore(s, d, vp, f, e, vq);
    }
  }

  /** A slot not shared after a mapping translated the same before it. */
  lemma UnsharedBefore(s: Space, d: nat, vp: Page, f: Page, e: nat, vq: Page)
    requires Inv(s) && d <= POOL && e <= POOL && MapIn(s, d, vp, f, 3).Some?
    ensures var s' := MapIn(s, d, vp, f, 3).value;
      && Inv(s')
      && (!Shares(s', e, d, Slot(vq)) ==> !Shares(s, e, d, Slot(vq)))
      && (vq != vp || !Shares(s', e, d, Slot(vq)) ==> Translate(s', e, vq) == Translate(s, e, vq))
  {
    MapInTranslates(s, d, vp, f, 3);
    MapInSlots(s, d, vp, f, 3);
  }

  /** The whole loop makes progress, as long as frame 0 is taken and no panic occurs. */
  lemma {:induction false} MapFreshProgress(s0: Space, u0: set<nat>, total: nat, d: nat, pages: seq<Page>,
                                            s: Space, u: set<nat>, frames: seq<nat>)
    requires Progress(s0, u0, total, d, pages, s, u, frames) && Distinct(pages) && total <= 0x10_0000 && 0 in u0
    ensures var r := MapFresh(s, u, total, d, pages, frames);
      !r.panic ==>
        && Progress(s0, u0, total, d, pages, r.space, r.used, r.frames)
        && (|r.frames| < |pages| ==> forall i: nat | i < total :: i in r.used)
    decreases |pages| - |frames|
  {
    if |frames| < |pages| && LowestFree(u, total).Some? {
      var f := LowestFree(u, total).value;
      if MapIn(s, d, pages[|frames|], f, 3).Some? {
        ProgressStep(s0, u0, total, d, pages, s, u, frames, f);
        MapFreshProgress(s0, u0, total, d, pages, MapIn(s, d, pages[|frames|], f, 3).value, u + {f}, frames + [f]);
      }
    }
  }

  lemma NoProgressYet(s0: Space, u0: set<nat>, total: nat, d: nat, pages: seq<Page>)
    requires Inv(s0) && d <= POOL
    ensures Progress(s0, u0, total, d, pages, s0, u0, [])
  {
  }

  /** A set of frames of memory is no larger than memory. */
  lemma {:induction false} FramesBounded(u: set<nat>, total: nat)
    requires forall f | f in u :: f < total
    ensures |u| <= total
    decreases total
  {
    if total == 0 {
      assert u == {};
    } else {
      var v := u - {total - 1};
      FramesBounded(v, total - 1);
      assert u <= v + {total - 1};
      assert |u| <= |v| + 1 by {
        if total - 1 in u {
          assert u == v + {total - 1};
        } else {
          assert u == v;
        }
      }
    }
  }

  // ----- how far the loop gets -----

  /** The directory entries that mapping these pages has to fill with new tables. */
  function AbsentSlots(s: Space, d: nat, pages: seq<Page>): set<nat>
    requires Sized(s) && d <= POOL
  {
    set i: nat | i < 1024 && At(s, d, i).Absent? && exists j :: 0 <= j < |pages| && Slot(pages[j]) == i
  }

  lemma AbsentFirst(s: Space, s': Space, d: nat, vp: Page, rest: seq<Page>)
    requires Sized(s) && Sized(s') && d <= POOL && At(s', d, Slot(vp)).Table?
    requires forall i: Index | i != Slot(vp) :: At(s', d, i) == At(s, d, i)
    ensures |AbsentSlots(s, d, [vp] + rest)| == |AbsentSlots(s', d, rest)| + if At(s, d, Slot(vp)).Absent? then 1 else 0
  {
    var (all, slot) := ([vp] + rest, Slot(vp));
    assert all[0] == vp && forall j | 0 <= j < |rest| :: all[j + 1] == rest[j];
    hide Slot;
    var later := AbsentSlots(s', d, rest);
    assert slot !in later;
    forall i: nat | i < 1024 && i != slot ensures i in AbsentSlots(s, d, all) <==> i in later {
      if i in AbsentSlots(s, d, all) {
        var j :| 0 <= j < |all| && Slot(all[j]) == i;
        assert Slot(rest[j - 1]) == i;
      }
      if i in later {
        var j :| 0 <= j < |rest| && Slot(rest[j]) == i;
        assert Slot(all[j + 1]) == i;
      }
    }
    if At(s, d, slot).Absent? {
      assert Slot(all[0]) == slot;
      assert AbsentSlots(s, d, all) == later + {slot};
    } else {
      assert AbsentSlots(s, d, all) == later;
    }
  }

  /** The pages the loop reaches before memory is out. */
  function Reached(used: set<nat>, total: nat, pages: seq<Page>): seq<Page> {
    pages[..Min(|pages|, |FreeFrames(used, total)|)]
  }

  /** The loop panics exactly when the pages it reaches need more tables than are left; otherwise it maps
      exactly those. */
  lemma {:induction false} MapFreshExactly(s: Space, u: set<nat>, total: nat, d: nat, pages: seq<Page>, frames: seq<nat>)
    requires Inv(s) && d <= POOL && |frames| <= |pages| && total <= 0x10_0000 && 0 in u
    ensures var r, rest := MapFresh(s, u, total, d, pages, frames), Reached(u, total, pages[|frames|..]);
      && (r.panic <==> |AbsentSlots(s, d, rest)| > POOL - s.nextTable)
      && (!r.panic ==> |r.frames| == |frames| + |rest|)
    decreases |pages| - |frames|
  {
    NoneFree(u, total);
    var rest := pages[|frames|..];
    if |frames| == |pages| || LowestFree(u, total).None? {
      NothingReached(s, u, total, d, pages, frames);
    } else {
      var f, vp := LowestFree(u, total).value, rest[0];
      TakeFree(u, total, f);
      assert rest[1..] == pages[|frames| + 1..];
      assert Reached(u, total, rest) == [vp] + Reached(u + {f}, total, rest[1..]);
      if MapIn(s, d, vp, f, 3).None? {
        OneReached(s, d, vp, Reached(u + {f}, total, rest[1..]));
      } else {
        var s' := MapIn(s, d, vp, f, 3).value;
        MapInTranslates(s, d, vp, f, 3);
        MapInSlots(s, d, vp, f, 3);
        AbsentFirst(s, s', d, vp, Reached(u + {f}, total, rest[1..]));
        MapFreshExactly(s', u + {f}, total, d, pages, frames + [f]);
        hide AbsentSlots;
        hide Inv;
        hide FreeFrames;
      }
    }
  }

  lemma NothingReached(s: Space, u: set<nat>, total: nat, d: nat, pages: seq<Page>, frames: seq<nat>)
    requires Inv(s) && d <= POOL && |frames| <= |pages| && total <= 0x10_0000
    requires |frames| == |pages| || LowestFree(u, total).None?
    ensures var r := MapFresh(s, u, total, d, pages, frames); !r.panic && r.frames == frames
    ensures Reached(u, total, pages[|frames|..]) == [] && |AbsentSlots(s, d, [])| == 0
  {
    NoneFree(u, total);
    assert AbsentSlots(s, d, []) == {};
  }

  lemma OneReached(s: Space, d: nat, vp: Page, rest: seq<Page>)
    requires Sized(s) && d <= POOL && At(s, d, Slot(vp)).Absent?
    ensures |AbsentSlots(s, d, [vp] + rest)| > 0
  {
    assert ([vp] + rest)[0] == vp;
    assert Slot(vp) in AbsentSlots(s, d, [vp] + rest);
  }
}
