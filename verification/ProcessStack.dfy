/** The stack a process gets when it is first run: sixteen pages below its initial stack pointer, in a
    page table of its own. */
module ProcessStack {
  import opened Bytes
  import opened Frames
  import opened Paging
  import opened FreshMapping

  const STACK_PAGES: nat := 16
  const STACK_TOP: Page := 0xB_FFF0  // STACK_BEGIN >> 12

  /** `STACK_BEGIN - i * 4096` */
  function StackPage(i: nat): (vp: Page)
    requires i < STACK_PAGES
    ensures Slot(vp) == STACK_SLOT
  {
    STACK_TOP - i
  }

  /** The loop over the stack pages from page `i` on. Unlike in `mmap` nothing stops it when memory is
      out: the null pointer of the allocator is mapped like a frame. */
  ghost function StackLoop(s: Space, used: set<nat>, total: nat, d: nat, i: nat): Option<(Space, set<nat>)>
    requires Inv(s) && d <= POOL && i <= STACK_PAGES && total <= 0x10_0000
    decreases STACK_PAGES - i
  {
    if i == STACK_PAGES then Some((s, used))
    else
      var w := LowestFree(used, total);
      var (f, used') := if w.Some? then (w.value, used + {w.value}) else (0, used);
      match MapIn(s, d, StackPage(i), f, 3)
      case None => None
      case Some(s') =>
        MapInTranslates(s, d, StackPage(i), f, 3);
        StackLoop(s', used', total, d, i + 1)
  }

  /** `run` up to the jump into the process. */
  ghost function Run(s: Space, used: set<nat>, total: nat, d: nat): Option<(Space, set<nat>)>
    requires Inv(s) && d <= POOL && total <= 0x10_0000
  {
    ResetTranslates(s, d);
    StackLoop(ResetStack(s, d), used, total, d, 0)
  }

  /** What a page of the stack's slot translates to when the first `i` stack pages are mapped and
      `frames` were to be had for them. */
  function StackView(frames: seq<nat>, i: nat, vp: Page): Option<nat>
    requires i <= STACK_PAGES
  {
    if STACK_TOP - i < vp <= STACK_TOP then Some(StackFrame(frames, STACK_TOP - vp)) else None
  }

  function StackFrame(frames: seq<nat>, j: nat): nat {
    if j < |frames| then frames[j] else 0
  }

  ghost predicate StackGrown(s0: Space, u0: set<nat>, total: nat, d: nat, s: Space, u: set<nat>, frames: seq<nat>, i: nat) {
    && Inv(s0) && Inv(s) && d <= POOL && |frames| <= i <= STACK_PAGES
    && s.nextDir == s0.nextDir && s.active == s0.active
    && FramesTaken(u0, total, u, frames)
    && (|frames| < i ==> LowestFree(u, total) == None)
    && |FreeFrames(u0, total)| == |FreeFrames(u, total)| + |frames|
    && (forall e, j: Index | 0 <= e <= POOL && (e != d || j != STACK_SLOT) :: At(s, e, j) == At(s0, e, j))
    && (forall e | 0 <= e <= POOL && e != d :: !Shares(s, e, d, STACK_SLOT))
    && forall e, vq: Page | 0 <= e <= POOL ::
      Translate(s, e, vq) == if e == d && Slot(vq) == STACK_SLOT then StackView(frames, i, vq) else Translate(s0, e, vq)
  }

  /** One more page: a frame of its own, or frame 0 once there are none left. */
  lemma ViewStep(frames: seq<nat>, i: nat, f: nat, vq: Page)
    requires i < STACK_PAGES && |frames| <= i && (|frames| < i ==> f == 0)
    ensures var frames' := if f == 0 then frames else frames + [f];
      StackView(frames', i + 1, vq) == if vq == StackPage(i) then Some(f) else StackView(frames, i, vq)
  {
  }

  lemma StackSeen(s0: Space, d: nat, s: Space, frames: seq<nat>, i: nat, f: Page, e: nat, vq: Page)
    requires Inv(s0) && Inv(s) && d <= POOL && e <= POOL && i < STACK_PAGES && |frames| <= i && (|frames| < i ==> f == 0)
    requires MapIn(s, d, StackPage(i), f, 3).Some?
    requires forall g | 0 <= g <= POOL && g != d :: !Shares(s, g, d, STACK_SLOT)
    requires Translate(s, e, vq) == if e == d && Slot(vq) == STACK_SLOT then StackView(frames, i, vq) else Translate(s0, e, vq)
    ensures var s' := MapIn(s, d, StackPage(i), f, 3).value;
      && Inv(s') && s'.nextDir == s.nextDir && s'.active == s.active
      && (e != d ==> !Shares(s', e, d, STACK_SLOT))
      && (forall j: Index | e != d || j != STACK_SLOT :: At(s', e, j) == At(s, e, j))
      && Translate(s', e, vq) == if e == d && Slot(vq) == STACK_SLOT
                                 then StackView(if f == 0 then frames else frames + [f], i + 1, vq) else Translate(s0, e, vq)
  {
    var vp := StackPage(i);
    var s' := MapIn(s, d, vp, f, 3).value;
    MapInTranslates(s, d, vp, f, 3);
    MapInSlots(s, d, vp, f, 3);
    ViewStep(frames, i, f, vq);
    hide MapIn;
    hide Inv;
    hide StackView;
    hide Translate;
    hide Slot;
    hide At;
    assert Shares(s', d, d, STACK_SLOT) by {
      assert Shares(s', d, d, Slot(vp));
    }
  }

  lemma StackStep(s0: Space, u0: set<nat>, total: nat, d: nat, s: Space, u: set<nat>, frames: seq<nat>, i: nat)
    requires StackGrown(s0, u0, total, d, s, u, frames, i) && i < STACK_PAGES && total <= 0x10_0000 && 0 in u0
    requires var w := LowestFree(u, total);
      MapIn(s, d, StackPage(i), if w.Some? then w.value else 0, 3).Some?
    ensures var w := LowestFree(u, total);
      var s' := MapIn(s, d, StackPage(i), if w.Some? then w.value else 0, 3).value;
      if w.Some? then StackGrown(s0, u0, total, d, s', u + {w.value}, frames + [w.value], i + 1)
      else StackGrown(s0, u0, total, d, s', u, frames, i + 1)
  {
    var w := LowestFree(u, total);
    var f := if w.Some? then w.value else 0;
    var s' := MapIn(s, d, StackPage(i), f, 3).value;
    if w.Some? {
      NewFrame(u0, total, u, frames, f);
    }
    hide MapIn;
    hide FramesTaken;
    hide LowestFree;
    hide FreeFrames;
    hide StackView;
    hide Slot;
    hide Inv;
    hide At;
    hide Translate;
    hide Shares;
    forall e, vq: Page | 0 <= e <= POOL
      ensures Inv(s') && s'.nextDir == s.nextDir && s'.active == s.active
      ensures Translate(s', e, vq) == if e == d && Slot(vq) == STACK_SLOT
                                      then StackView(if f == 0 then frames else frames + [f], i + 1, vq)
                                      else Translate(s0, e, vq)
    {
      StackSeen(s0, d, s, frames, i, f, e, vq);
    }
    StackSeen(s0, d, s, frames, i, f, d, 0);
    forall e | 0 <= e <= POOL
      ensures e != d ==> !Shares(s', e, d, STACK_SLOT)
      ensures forall j: Index | e != d || j != STACK_SLOT :: At(s', e, j) == At(s, e, j)
    {
      StackSeen(s0, d, s, frames, i, f, e, 0);
    }
  }

  lemma NewFrame(u0: set<nat>, total: nat, u: set<nat>, frames: seq<nat>, f: nat)
    requires FramesTaken(u0, total, u, frames) && 0 in u0 && f !in u && f < total
    requires |FreeFrames(u0, total)| == |FreeFrames(u, total)| + |frames|
    ensures f > 0 && FramesTaken(u0, total, u + {f}, frames + [f])
    ensures |FreeFrames(u0, total)| == |FreeFrames(u + {f}, total)| + |frames + [f]|
  {
    TakeOne(u0, total, u, frames, f);
    TakeFree(u, total, f);
    hide FreeFrames;
  }

  lemma {:induction false} StackLoopGrows(s0: Space, u0: set<nat>, total: nat, d: nat, s: Space, u: set<nat>, frames: seq<nat>, i: nat)
    returns (all: seq<nat>)
    requires StackGrown(s0, u0, total, d, s, u, frames, i) && total <= 0x10_0000 && 0 in u0
    ensures var r := StackLoop(s, u, total, d, i);
      r.Some? ==> StackGrown(s0, u0, total, d, r.value.0, r.value.1, all, STACK_PAGES)
    decreases STACK_PAGES - i
  {
    all := frames;
    if i < STACK_PAGES {
      var w := LowestFree(u, total);
      var (f, u') := if w.Some? then (w.value, u + {w.value}) else (0, u);
      if MapIn(s, d, StackPage(i), f, 3).Some? {
        StackStep(s0, u0, total, d, s, u, frames, i);
        hide StackGrown;
        all := StackLoopGrows(s0, u0, total, d, MapIn(s, d, StackPage(i), f, 3).value, u',
                              if w.Some? then frames + [f] else frames, i + 1);
      }
    }
  }

  lemma EmptyStack(s: Space, used: set<nat>, total: nat, d: nat)
    requires Inv(s) && d <= POOL
    ensures StackGrown(ResetStack(s, d), used, total, d, ResetStack(s, d), used, [], 0)
  {
    ResetTranslates(s, d);
  }

  /** A process that is run has a stack of its own: each of its sixteen pages translates to a frame
      nobody held before, the rest of their slot is unmapped, no other directory shares it, and every
      other translation, its own and everybody else's, is as it was. All sixteen frames are to be had
      exactly when that many are free beforehand; the pages that get none fall together on frame 0. */
  lemma RunGivesPrivateStack(s: Space, used: set<nat>, total: nat, d: nat) returns (frames: seq<nat>)
    requires Inv(s) && d <= POOL && total <= 0x10_0000 && 0 in used && Run(s, used, total, d).Some?
    ensures var (s', used') := Run(s, used, total, d).value;
      && Inv(s') && s'.nextDir == s.nextDir && FramesTaken(used, total, used', frames)
      && |frames| == Min(STACK_PAGES, |FreeFrames(used, total)|)
      && (forall e, j: Index | 0 <= e <= POOL && (e != d || j != STACK_SLOT) :: At(s', e, j) == At(s, e, j))
      && (forall e | 0 <= e <= POOL && e != d :: !Shares(s', e, d, STACK_SLOT))
      && forall e, vq: Page | 0 <= e <= POOL ::
        Translate(s', e, vq) == if e == d && Slot(vq) == STACK_SLOT then StackView(frames, STACK_PAGES, vq)
                                else Translate(s, e, vq)
  {
    ResetTranslates(s, d);
    EmptyStack(s, used, total, d);
    var s0 := ResetStack(s, d);
    frames := StackLoopGrows(s0, used, total, d, s0, used, [], 0);
    NoneFree(Run(s, used, total, d).value.1, total);
    hide StackLoop;
    hide Inv;
    hide ResetStack;
    hide FramesTaken;
    hide StackView;
    hide LowestFree;
    hide FreeFrames;
  }

  lemma {:induction false} TableIsEnough(s: Space, used: set<nat>, total: nat, d: nat, i: nat)
    requires Inv(s) && d <= POOL && i <= STACK_PAGES && total <= 0x10_0000 && At(s, d, STACK_SLOT).Table?
    ensures StackLoop(s, used, total, d, i).Some?
    decreases STACK_PAGES - i
  {
    if i < STACK_PAGES {
      var w := LowestFree(used, total);
      var (f, used') := if w.Some? then (w.value, used + {w.value}) else (0, used);
      MapInTranslates(s, d, StackPage(i), f, 3);
      TableIsEnough(MapIn(s, d, StackPage(i), f, 3).value, used', total, d, i + 1);
    }
  }

  /** Running a process panics exactly when there is no page table left for its stack. */
  lemma RunPanicsExactly(s: Space, used: set<nat>, total: nat, d: nat)
    requires Inv(s) && d <= POOL && total <= 0x10_0000
    ensures Run(s, used, total, d) == None <==> s.nextTable == POOL
  {
    ResetTranslates(s, d);
    var s0 := ResetStack(s, d);
    if s.nextTable < POOL {
      var w := LowestFree(used, total);
      var (f, used') := if w.Some? then (w.value, used + {w.value}) else (0, used);
      MapInTranslates(s0, d, StackPage(0), f, 3);
      TableIsEnough(MapIn(s0, d, StackPage(0), f, 3).value, used', total, d, 1);
    }
  }

  /** With all of memory taken the whole stack lies on frame 0. */
  lemma FullMemoryStack(s: Space, used: set<nat>, total: nat, d: nat)
    requires Inv(s) && d <= POOL && total <= 0x10_0000 && 0 in used && FreeFrames(used, total) == {} && s.nextTable < POOL
    ensures Run(s, used, total, d).Some?
    ensures var s' := Run(s, used, total, d).value.0;
      Inv(s') && forall j | 0 <= j < STACK_PAGES :: Translate(s', d, StackPage(j)) == Some(0)
  {
    RunPanicsExactly(s, used, total, d);
    var frames := RunGivesPrivateStack(s, used, total, d);
    assert frames == [];
    hide Run;
    hide Inv;
  }

  /** The smallest such machine has one frame: two stack pages of its first process are one page. */
  lemma StackPagesFallTogether()
    ensures Inv(BootSpace()) && Run(BootSpace(), {0}, 1, 1).Some?
    ensures var s' := Run(BootSpace(), {0}, 1, 1).value.0;
      Inv(s') && Translate(s', 1, StackPage(0)) == Translate(s', 1, StackPage(1)) == Some(0)
  {
    BootSpaceMeans();
    assert BootSpace().nextTable == 0;
    hide BootSpace;
    hide Inv;
    hide Run;
    assert FreeFrames({0}, 1) == {};
    FullMemoryStack(BootSpace(), {0}, 1, 1);
  }
}
