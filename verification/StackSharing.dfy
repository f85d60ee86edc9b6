/** Page tables and pre-emption together: on whose stack the words of an interrupt land. */
module StackSharing {
  import opened Bytes
  import opened Frames
  import opened FreshMapping
  import opened Paging
  import opened Preemption
  import opened ProcessStack

  /** Stands for the frame of a page that translates to nothing. */
  const NOWHERE: nat := 0x10_0000

  /** Which frame each page is on, as the page tables have it. */
  ghost function Walked(p: Space): Spaces
    requires Inv(p)
  {
    (d: nat, vp: nat) =>
      if d > POOL || vp >= 0x10_0000 then NOWHERE
      else match Translate(p, d, vp) case Some(f) => f case None => NOWHERE
  }

  lemma PlaceWalked(p: Space, d: nat, a: U32)
    requires Inv(p) && d <= POOL
    ensures var f := Translate(p, d, PageOf(a));
      PlaceOf(Walked(p), d, a) == (if f.Some? then f.value else NOWHERE, a % FRAME_SIZE)
  {
    hide Translate;
    hide Inv;
  }

  /** Two processes in directories that share the stack's table, as a created process and its creator do
      until one of them is run, are on one stack: what an interrupt of the one pushes is what the other
      then finds at the same addresses, its own words gone. */
  lemma SharedStackLosesWords(p: Space, s: Sys, s': Sys, q: nat, d: nat, k: nat)
    requires Inv(p) && s.view == Walked(p) && Tick(s, s', q) && !Switches(s)
    requires s.activeDir <= POOL && d <= POOL && Shares(p, s.activeDir, d, STACK_SLOT)
    requires 1 <= k <= 11 && Slot(PageOf(Down(s.regs.esp, 4 * k))) == STACK_SLOT
    ensures Load(s'.stacks, Below(s.view, d, s.regs.esp, k)) == InterruptWords(s.regs)[k - 1]
  {
    var a := Down(s.regs.esp, 4 * k);
    PlaceWalked(p, d, a);
    PlaceWalked(p, s.activeDir, a);
    PushedAt(s.stacks, s.view, s.activeDir, s.regs.esp, InterruptWords(s.regs));
    BelowIs(s.view, d, s.regs.esp, k);
    BelowIs(s.view, s.activeDir, s.regs.esp, k);
    hide Walked;
    hide Down;
    hide Below;
    hide PlaceOf;
    hide Pushed;
    hide Load;
    hide InterruptWords;
    hide Inv;
  }

  /** A step of the memory manager that maps none of these frames, or none of the pages on them, for `d`,
      and does not take away its stack. */
  ghost predicate Careful(p: Space, step: Step, d: nat, frames: set<nat>)
    requires Inv(p) && d <= POOL
  {
    match step
    case MapStep(_, vp, page, _) => page !in frames && OffPage(p, d, vp, frames)
    case CreateStep(from, count) =>
      d <= p.nextDir && p.active <= p.nextDir && from + count <= 0x10_0000 && BootStackMapped(p, from, count)
    case ResetStackStep(e) => e != d
    case SwitchStep(_) => true
    case UnmapStep(vp) => OffPage(p, d, vp, frames)
  }

  ghost predicate OffPage(p: Space, d: nat, vp: Page, frames: set<nat>)
    requires Inv(p) && d <= POOL
  {
    Translate(p, d, vp).Some? ==> Translate(p, d, vp).value !in frames
  }

  lemma StepTranslates(p: Space, step: Step, p': Space, d: nat, frames: set<nat>, vq: Page)
    requires Paging.StepTo(p, step, p') && Inv(p') && d <= POOL && Careful(p, step, d, frames)
    ensures Translate(p', d, vq) == Translate(p, d, vq) || (OffPage(p, d, vq, frames) && OffPage(p', d, vq, frames))
  {
    match step
    case MapStep(e, vp, page, flags) => MapInTranslates(p, e, vp, page, flags);
    case CreateStep(from, count) => CreateTranslates(p, from, count);
    case ResetStackStep(e) => ResetTranslates(p, e);
    case SwitchStep(e) => SetActive(p, e);
    case UnmapStep(vp) => UnmapTranslates(p, vp);
  }

  /** Such steps are among those `StackResumesUnchanged` allows: creating, mapping and running for others
      leave a process its stack. */
  lemma StepKeepsPages(p: Space, step: Step, p': Space, d: nat, frames: set<nat>)
    requires Paging.StepTo(p, step, p') && Inv(p') && d <= POOL && Careful(p, step, d, frames) && NOWHERE !in frames
    ensures KeepsPages(Walked(p), Walked(p'), d, frames)
  {
    hide Careful;
    hide Inv;
    hide Translate;
    forall vp: Page ensures Translate(p', d, vp) == Translate(p, d, vp) || (OffPage(p, d, vp, frames) && OffPage(p', d, vp, frames)) {
      StepTranslates(p, step, p', d, frames, vp);
    }
  }

  predicate OnStackPages(a: U32) { STACK_TOP - STACK_PAGES < PageOf(a) <= STACK_TOP }

  /** Once a process is run, its stack pages are out of the way of every other process whose stack
      pointer is on frames taken before: no interrupt but its own reaches them. */
  lemma RunStackIsAside(p: Space, used: set<nat>, total: nat, d: nat, s: Sys, j: nat) returns (frames: seq<nat>)
    requires Inv(p) && d <= POOL && total <= 0x10_0000 && 0 in used && Run(p, used, total, d).Some?
    requires Inv(Run(p, used, total, d).value.0) && s.view == Walked(Run(p, used, total, d).value.0)
    requires j < |s.procs| && s.procs[j].dir <= POOL && s.procs[j].dir != d
    requires forall k | 1 <= k <= 11 ::
      Below(Walked(p), s.procs[j].dir, RegsOf(s, j).esp, k).0 in used + {NOWHERE}
    ensures |frames| == Min(STACK_PAGES, |FreeFrames(used, total)|)
    ensures forall vp: Page | STACK_TOP - |frames| < vp <= STACK_TOP ::
      Translate(Run(p, used, total, d).value.0, d, vp) == Some(frames[STACK_TOP - vp])
    ensures Aside(s, j, set f | f in frames)
  {
    frames := RunGivesPrivateStack(p, used, total, d);
    var p' := Run(p, used, total, d).value.0;
    var e, esp := s.procs[j].dir, RegsOf(s, j).esp;
    hide Run;
    hide Inv;
    hide RegsOf;
    hide Walked;
    forall k: nat | 1 <= k <= 11 ensures Below(s.view, e, esp, k).0 !in frames {
      var a := Down(esp, 4 * k);
      hide Down;
      BelowIs(s.view, e, esp, k);
      BelowIs(Walked(p), e, esp, k);
      PlaceWalked(p, e, a);
      PlaceWalked(p', e, a);
      assert Translate(p', e, PageOf(a)) == Translate(p, e, PageOf(a));
      assert Below(Walked(p), e, esp, k).0 in used + {NOWHERE};
    }
  }

  /** The addresses of its stack are that many words of memory exactly when at least fifteen frames were
      free: one page may still lie on frame 0 alone. */
  lemma StackWordsApartExactly(p: Space, used: set<nat>, total: nat, d: nat)
    requires Inv(p) && d <= POOL && total <= 0x10_0000 && 0 in used && Run(p, used, total, d).Some?
    ensures Inv(Run(p, used, total, d).value.0)
    ensures var v := Walked(Run(p, used, total, d).value.0);
      (forall a: U32, b: U32 | OnStackPages(a) && OnStackPages(b) && a != b :: PlaceOf(v, d, a) != PlaceOf(v, d, b))
      <==> |FreeFrames(used, total)| >= STACK_PAGES - 1
  {
    var frames := RunGivesPrivateStack(p, used, total, d);
    var p' := Run(p, used, total, d).value.0;
    var v := Walked(p');
    hide Run;
    hide Inv;
    hide FreeFrames;
    hide Walked;
    forall a: U32 | OnStackPages(a) ensures PlaceOf(v, d, a) == (StackFrame(frames, STACK_TOP - PageOf(a)), a % FRAME_SIZE) {
      StackAddress(a);
      PlaceWalked(p', d, a);
    }
    PlacesApartExactly(v, d, frames);
  }

  /** Places on sixteen pages, each on its frame or, where there is none, on frame 0. */
  lemma PlacesApartExactly(v: Spaces, d: nat, frames: seq<nat>)
    requires Distinct(frames) && forall k | 0 <= k < |frames| :: frames[k] > 0
    requires forall a: U32 | OnStackPages(a) :: PlaceOf(v, d, a) == (StackFrame(frames, STACK_TOP - PageOf(a)), a % FRAME_SIZE)
    ensures (forall a: U32, b: U32 | OnStackPages(a) && OnStackPages(b) && a != b :: PlaceOf(v, d, a) != PlaceOf(v, d, b))
            <==> |frames| >= STACK_PAGES - 1
  {
    hide PlaceOf;
    if |frames| >= STACK_PAGES - 1 {
      forall a: U32, b: U32 | OnStackPages(a) && OnStackPages(b) && a != b ensures PlaceOf(v, d, a) != PlaceOf(v, d, b) {
        FramesApart(frames, STACK_TOP - PageOf(a), STACK_TOP - PageOf(b));
      }
    } else {
      var a: U32, b: U32 := (STACK_TOP - 15) * FRAME_SIZE, (STACK_TOP - 14) * FRAME_SIZE;
      assert PageOf(a) == STACK_TOP - 15 && PageOf(b) == STACK_TOP - 14;
      assert PlaceOf(v, d, a) == PlaceOf(v, d, b);
    }
  }

  lemma StackAddress(a: U32)
    requires OnStackPages(a)
    ensures Slot(PageOf(a)) == STACK_SLOT
  {
    assert PageOf(a) == StackPage(STACK_TOP - PageOf(a));
  }

  lemma FramesApart(frames: seq<nat>, i: nat, j: nat)
    requires Distinct(frames) && |frames| >= STACK_PAGES - 1 && i < STACK_PAGES && j < STACK_PAGES
    requires forall k | 0 <= k < |frames| :: frames[k] > 0
    ensures i != j ==> StackFrame(frames, i) != StackFrame(frames, j)
  {
  }

  /** A process that is created and runs, and then creates another: both are on one stack. */
  lemma SharedStackRun() returns (states: seq<Space>, steps: seq<Step>)
    ensures Paging.IsRun(states, steps) && |steps| == 4 && states[0] == BootSpace() && Inv(states[4])
    ensures Shares(states[4], 1, 2, STACK_SLOT)
  {
    BootSpaceMeans();
    var s0 := BootSpace();
    assert s0.nextDir == s0.active == s0.nextTable == 0;
    hide BootSpace;
    CreateTranslates(s0, 0, 0);
    var s1 := Create(s0, 0, 0).value;
    var vp := StackPage(0);
    hide Create;
    hide StackPage;
    var made := MapIn(s1, 1, vp, 5, 3);
    assert made.Some?;
    var s2 := made.value;
    MapInTranslates(s1, 1, vp, 5, 3);
    MapInSlots(s1, 1, vp, 5, 3);
    hide MapIn;
    var s3 := s2.(active := 1);
    SetActive(s2, 1);
    CreateTranslates(s3, 0, 0);
    var s4 := Create(s3, 0, 0).value;
    hide Inv;
    states, steps := [s0, s1, s2, s3, s4], [CreateStep(0, 0), MapStep(1, vp, 5, 3), SwitchStep(1), CreateStep(0, 0)];
    assert Paging.StepTo(states[0], steps[0], states[1]) && Paging.StepTo(states[1], steps[1], states[2]);
    assert Paging.StepTo(states[2], steps[2], states[3]) && Paging.StepTo(states[3], steps[3], states[4]);
  }
}
