/** Timer interrupts and context switches. The interrupt path runs on words of stack memory and on
    registers as the processor, the assembly stubs and the two handlers do; its effect is then stated
    as one transition, and pre-emption is shown to be invisible to processes over whole runs. */
module Preemption {
  import opened Bytes
  import opened Frames

  // ----- 32-bit address arithmetic -----

  function Down(a: U32, n: nat): U32
    requires n <= 64
  {
    if a >= n then a - n else a - n + TWO32
  }

  function Up(a: U32, n: nat): U32
    requires n <= 64
  {
    if a + n < TWO32 then a + n else a + n - TWO32
  }

  lemma Further(a: U32, i: nat, j: nat)
    requires i + j <= 64
    ensures Down(Down(a, i), j) == Down(a, i + j) && Up(Up(a, i), j) == Up(a, i + j)
    ensures j <= i ==> Up(Down(a, i), j) == Down(a, i - j)
  {
  }

  // ----- processor and processes -----

  datatype Regs = Regs(edi: U32, esi: U32, ebp: U32, esp: U32, ebx: U32, edx: U32, ecx: U32, eax: U32,
                       eip: U32, cs: U32, eflags: U32)

  // ----- stack memory -----

  /** The frame each page of each address space is on. */
  type Spaces = (nat, nat) -> nat

  /** A word of memory: its frame and where it lies in it. */
  type Place = (nat, nat)

  /** Stack memory in words. Words that were never stored read as 0. */
  type Stacks = map<Place, U32>

  function Load(m: Stacks, x: Place): U32 {
    if x in m then m[x] else 0
  }

  function PlaceOf(v: Spaces, dir: nat, a: U32): Place {
    (v(dir, a / FRAME_SIZE), a % FRAME_SIZE)
  }

  /** Where the `k`-th word below a stack pointer is. */
  function Below(v: Spaces, dir: nat, esp: U32, k: nat): Place
    requires k <= 11
  {
    PlaceOf(v, dir, Down(esp, 4 * k))
  }

  /** Eleven words below a stack pointer are eleven places, whatever frames its pages are on. */
  lemma PlacesApart(v: Spaces, dir: nat, esp: U32, j: nat, k: nat)
    requires j <= 11 && k <= 11 && j != k
    ensures Below(v, dir, esp, j) != Below(v, dir, esp, k)
  {
    DownOffset(esp, 4 * j);
    DownOffset(esp, 4 * k);
    hide Down;
  }

  lemma DownOffset(esp: U32, n: nat)
    requires n <= 64
    ensures var o := esp % FRAME_SIZE; Down(esp, n) % FRAME_SIZE == if o >= n then o - n else o - n + FRAME_SIZE
  {
    var q, o := esp / FRAME_SIZE, esp % FRAME_SIZE;
    if o >= n {
      OffsetOf(q, o - n);
    } else if q > 0 {
      OffsetOf(q - 1, o - n + FRAME_SIZE);
    } else {
      OffsetOf(0xF_FFFF, o - n + FRAME_SIZE);
    }
  }

  lemma OffsetOf(q: nat, o: nat)
    requires o < FRAME_SIZE
    ensures (FRAME_SIZE * q + o) % FRAME_SIZE == o
  {
  }

  lemma BelowIs(v: Spaces, dir: nat, esp: U32, k: nat)
    requires k <= 11
    ensures Below(v, dir, esp, k) == PlaceOf(v, dir, Down(esp, 4 * k))
  {
    hide Down;
    hide PlaceOf;
  }

  lemma BelowFurther(v: Spaces, dir: nat, esp: U32, j: nat, k: nat)
    requires j + k <= 11
    ensures Below(v, dir, Down(esp, 4 * j), k) == Below(v, dir, esp, j + k)
  {
    Further(esp, 4 * j, 4 * k);
    hide Down;
  }

  /** Memory after words have been pushed in order. */
  function Pushed(m: Stacks, v: Spaces, dir: nat, esp: U32, ws: seq<U32>): Stacks
    requires |ws| <= 11
  {
    if ws == [] then m
    else Pushed(m, v, dir, esp, ws[..|ws| - 1])[Below(v, dir, esp, |ws|) := ws[|ws| - 1]]
  }

  /** One of the words just below a stack pointer. */
  ghost predicate Clobbered(v: Spaces, dir: nat, esp: U32, words: nat, x: Place) {
    exists k :: 1 <= k <= words <= 11 && x == Below(v, dir, esp, k)
  }

  lemma {:induction false} PushedAt(m: Stacks, v: Spaces, dir: nat, esp: U32, ws: seq<U32>)
    requires |ws| <= 11
    ensures forall k | 1 <= k <= |ws| :: Load(Pushed(m, v, dir, esp, ws), Below(v, dir, esp, k)) == ws[k - 1]
    ensures forall x :: !Clobbered(v, dir, esp, |ws|, x) ==> Load(Pushed(m, v, dir, esp, ws), x) == Load(m, x)
    decreases |ws|
  {
    hide Below;
    if ws != [] {
      var n := |ws|;
      PushedAt(m, v, dir, esp, ws[..n - 1]);
      forall k: nat | 1 <= k < n ensures Below(v, dir, esp, k) != Below(v, dir, esp, n) {
        PlacesApart(v, dir, esp, k, n);
      }
      forall x | !Clobbered(v, dir, esp, n, x) ensures !Clobbered(v, dir, esp, n - 1, x) && x != Below(v, dir, esp, n) {
        NarrowClobber(v, dir, esp, n, x);
      }
    }
  }

  lemma NarrowClobber(v: Spaces, dir: nat, esp: U32, n: nat, x: Place)
    requires 1 <= n <= 11
    ensures Clobbered(v, dir, esp, n, x) <==> Clobbered(v, dir, esp, n - 1, x) || x == Below(v, dir, esp, n)
  {
    hide Below;
  }

  lemma {:induction false} PushedMore(m: Stacks, v: Spaces, dir: nat, esp: U32, us: seq<U32>, ws: seq<U32>)
    requires |us| + |ws| <= 11
    ensures Pushed(Pushed(m, v, dir, esp, us), v, dir, Down(esp, 4 * |us|), ws) == Pushed(m, v, dir, esp, us + ws)
    decreases |ws|
  {
    hide Below;
    hide Down;
    if ws == [] {
      assert us + ws == us;
    } else {
      var front := ws[..|ws| - 1];
      assert (us + ws)[..|us| + |ws| - 1] == us + front;
      PushedMore(m, v, dir, esp, us, front);
      BelowFurther(v, dir, esp, |us|, |ws|);
    }
  }

  /** Exactly the words in the places pushed to change, and of them those that held something else. */
  lemma PushedExactly(m: Stacks, v: Spaces, dir: nat, esp: U32, ws: seq<U32>, x: Place)
    requires |ws| <= 11
    ensures Load(Pushed(m, v, dir, esp, ws), x) != Load(m, x)
            <==> exists k :: 1 <= k <= |ws| && x == Below(v, dir, esp, k) && ws[k - 1] != Load(m, x)
  {
    PushedAt(m, v, dir, esp, ws);
    hide Below;
    hide Load;
    hide Pushed;
    if Clobbered(v, dir, esp, |ws|, x) {
      var k: nat :| 1 <= k <= |ws| && x == Below(v, dir, esp, k);
      assert Load(Pushed(m, v, dir, esp, ws), Below(v, dir, esp, k)) == ws[k - 1];
    }
  }

  // ----- processes -----

  datatype Proc = Proc(pid: nat, dir: nat, driver: bool, state: Regs)

  /** How an interrupt ends: some process continues, the kernel panics, or the scheduler reads through
      its null process list. */
  datatype Outcome = Resumed | KernelPanic | NullRead

  const CODE_SELECTOR: U32 := 8

  /** What an interrupt pushes: the processor its three words, then `PUSHA` all eight registers. */
  function InterruptWords(r: Regs): (ws: seq<U32>)
    ensures |ws| == 11
  {
    First(r) + Second(r.(esp := Down(r.esp, 12)))
  }

  function First(r: Regs): (ws: seq<U32>)
    ensures |ws| == 3
  {
    [r.eflags, r.cs, r.eip]
  }

  function Second(r: Regs): (ws: seq<U32>)
    ensures |ws| == 8
  {
    [r.eax, r.ecx, r.edx, r.ebx, r.esp, r.ebp, r.esi, r.edi]
  }

  /** What resuming a process pushes on its stack for `IRETD` to take back. */
  function ResumeWords(r: Regs): (ws: seq<U32>)
    ensures |ws| == 3
  {
    [r.eflags, CODE_SELECTOR, r.eip]
  }

  const INTERVAL: nat := 50

  function NextTick(t: nat): nat {
    (t + 1) % 0x1_0000_0000_0000_0000
  }

  function Flip(i: nat): nat {
    if i % 2 == 0 then i + 1 else i - 1
  }

  /** The machine as a value. */
  datatype Sys = Sys(regs: Regs, cr3: nat, stacks: Stacks, procs: seq<Proc>, activePid: nat, activeDir: nat,
                     ticks: nat, currentProcess: nat, hasGetpid: bool, hasProcList: bool, ownerDir: Option<nat>,
                     view: Spaces)

  ghost predicate IndexOf(procs: seq<Proc>, pid: nat, p: nat) {
    p < |procs| && procs[p].pid == pid && forall j | 0 <= j < p :: procs[j].pid != pid
  }

  /** Process identifiers are positive and distinct; the running process, cr3 and the active directory
      agree; the scheduler knows its process list only once it can ask for the running process. */
  ghost predicate Good(s: Sys) {
    && (forall i, j | 0 <= i < j < |s.procs| :: s.procs[i].pid != s.procs[j].pid)
    && (forall i | 0 <= i < |s.procs| :: s.procs[i].pid > 0 && s.procs[i].state.cs == CODE_SELECTOR)
    && (exists p :: Runs(s, p))
    && (s.hasProcList ==> s.hasGetpid) && s.currentProcess < 2 && s.regs.cs == CODE_SELECTOR
  }

  /** Process `p` is the one running, and everything that names the running process names it. */
  ghost predicate Runs(s: Sys, p: nat) {
    && IndexOf(s.procs, s.activePid, p)
    && s.procs[p].dir == s.activeDir == s.cr3
  }

  ghost predicate Saves(s: Sys) { s.ownerDir.Some? && s.hasGetpid }

  ghost predicate Switches(s: Sys) {
    s.ownerDir.Some? && s.hasProcList && |s.procs| > 1 && NextTick(s.ticks) % INTERVAL == 0
  }

  /** A driver, or a process whose saved registers were never filled in. */
  predicate Unresumable(t: Proc) { t.driver || t.state.eip == 0 || t.state.esp == 0 }

  ghost function SavedProcs(s: Sys, p: nat): seq<Proc>
    requires p < |s.procs|
  {
    if Saves(s) then s.procs[p := s.procs[p].(state := s.regs)] else s.procs
  }

  ghost function Entered(s: Sys): Stacks {
    Pushed(s.stacks, s.view, s.activeDir, s.regs.esp, InterruptWords(s.regs))
  }

  /** What a timer interrupt that returns to a process does, given that `p` was running: its registers
      are saved, either it continues with all of them unchanged or the other process of the pair
      continues with the registers saved for it, and memory changes by the words pushed below the stack
      pointers of the two. */
  ghost predicate Tick(s: Sys, s': Sys, p: nat) {
    && Runs(s, p)
    && s'.procs == SavedProcs(s, p)
    && (if Switches(s)
        then
          && s'.currentProcess == Flip(s.currentProcess) && s'.currentProcess < |s.procs|
          && Runs(s', s'.currentProcess) && !s'.procs[s'.currentProcess].driver
          && s'.regs == s'.procs[s'.currentProcess].state.(cs := CODE_SELECTOR)
        else
          && s'.currentProcess == s.currentProcess && s'.regs == s.regs
          && s'.activePid == s.activePid && s'.activeDir == s.activeDir && s'.cr3 == s.cr3)
    && s'.hasGetpid == s.hasGetpid && s'.hasProcList == s.hasProcList && s'.ownerDir == s.ownerDir
    && s'.ticks == (if s.ownerDir.Some? then NextTick(s.ticks) else s.ticks)
    && s'.view == s.view
    && s'.stacks == if Switches(s)
                    then Pushed(Entered(s), s.view, s'.activeDir, s'.regs.esp, ResumeWords(s'.regs))
                    else Entered(s)
  }

  // ----- whole runs -----

  /** The other ways the machine moves: the running process computes and writes memory, the scheduler
      registers its handler and fills its two pointers in order, a new process is added, and page tables
      and memory change as they do when a process is loaded or given memory. */
  datatype Event =
    | Compute(regs: Regs, stacks: Stacks)
    | SetHandler
    | SetGetpid
    | SetProcList
    | AddProc(proc: Proc)
    | Remap(view: Spaces, stacks: Stacks)
    | Interrupt

  ghost predicate StepTo(s: Sys, e: Event, s': Sys) {
    match e
    case Compute(r, m) => r.cs == CODE_SELECTOR && s' == s.(regs := r, stacks := m)
    case SetHandler => s' == s.(ownerDir := Some(s.activeDir))
    case SetGetpid => s' == s.(hasGetpid := true)
    case SetProcList => s.hasGetpid && s' == s.(hasProcList := true)
    case AddProc(proc) =>
      && proc.pid > 0 && proc.state.cs == CODE_SELECTOR && (forall i | 0 <= i < |s.procs| :: s.procs[i].pid != proc.pid)
      && s' == s.(procs := s.procs + [proc])
    case Remap(v, m) => s' == s.(view := v, stacks := m)
    case Interrupt => exists p :: Tick(s, s', p)
  }

  /** The machine without interrupts: every process has registers of its own that nothing but its own
      computing changes. */
  ghost function Private(ctx: seq<Regs>, running: nat, e: Event): seq<Regs>
    requires running < |ctx|
  {
    match e
    case Compute(r, _) => ctx[running := r]
    case AddProc(proc) => ctx + [proc.state]
    case _ => ctx
  }

  /** The running process has its private registers in the processor, every other one in its saved
      state. */
  ghost predicate Simulates(s: Sys, ctx: seq<Regs>) {
    && |ctx| == |s.procs|
    && forall i | 0 <= i < |ctx| :: ctx[i] == if s.procs[i].pid == s.activePid then s.regs else s.procs[i].state
  }

  lemma TickKeepsGood(s: Sys, s': Sys, p: nat)
    requires Good(s) && Tick(s, s', p)
    ensures Good(s')
  {
    if !Switches(s) {
      assert Runs(s', p);
    } else {
      assert Runs(s', s'.currentProcess);
    }
  }

  /** Before the scheduler can save registers it cannot switch either, so no interrupt changes what any
      process sees in its registers. */
  lemma TickInvisible(s: Sys, s': Sys, p: nat, ctx: seq<Regs>)
    requires Good(s) && Tick(s, s', p) && Simulates(s, ctx)
    ensures Good(s') && Simulates(s', ctx)
  {
    TickKeepsGood(s, s', p);
    forall i | 0 <= i < |ctx| ensures ctx[i] == if s'.procs[i].pid == s'.activePid then s'.regs else s'.procs[i].state {
      assert ctx[i] == if s.procs[i].pid == s.activePid then s.regs else s.procs[i].state;
      assert s.procs[i].pid == s.activePid <==> i == p;
      if Switches(s) {
        var q := s'.currentProcess;
        assert s'.procs[i].pid == s'.activePid <==> i == q;
      }
    }
  }

  lemma StepInvisible(s: Sys, e: Event, s': Sys, p: nat, ctx: seq<Regs>)
    requires Good(s) && StepTo(s, e, s') && Simulates(s, ctx) && Runs(s, p)
    ensures Good(s') && Simulates(s', Private(ctx, p, e))
  {
    match e
    case Interrupt =>
      var q: nat :| Tick(s, s', q);
      TickInvisible(s, s', q, ctx);
    case AddProc(proc) =>
      assert Runs(s', p);
    case _ =>
      assert Runs(s', p);
  }

  ghost predicate IsRun(ss: seq<Sys>, es: seq<Event>) {
    |ss| == |es| + 1 && Good(ss[0]) && forall k | 0 <= k < |es| :: StepTo(ss[k], es[k], ss[k + 1])
  }

  ghost function RunningIn(s: Sys): (p: nat)
    requires Good(s)
    ensures Runs(s, p)
  {
    var p: nat :| Runs(s, p);
    p
  }

  /** The private registers after the first `n` events. */
  ghost function Contexts(ss: seq<Sys>, es: seq<Event>, n: nat): seq<Regs>
    requires IsRun(ss, es) && n <= |es|
    ensures Good(ss[n]) && Simulates(ss[n], Contexts(ss, es, n))
    decreases n
  {
    if n == 0 then
      seq(|ss[0].procs|, i requires 0 <= i < |ss[0].procs| =>
        if ss[0].procs[i].pid == ss[0].activePid then ss[0].regs else ss[0].procs[i].state)
    else
      var ctx := Contexts(ss, es, n - 1);
      assert StepTo(ss[n - 1], es[n - 1], ss[n]);
      StepInvisible(ss[n - 1], es[n - 1], ss[n], RunningIn(ss[n - 1]), ctx);
      Private(ctx, RunningIn(ss[n - 1]), es[n - 1])
  }

  /** Over whole runs: a process that runs again, without having computed in between, has exactly the
      registers it had, however often it was interrupted and others ran. */
  lemma {:induction false} ResumesUnchanged(ss: seq<Sys>, es: seq<Event>, n: nat, m: nat, i: nat)
    requires IsRun(ss, es) && n <= m <= |es| && i < |ss[n].procs|
    requires forall k | n <= k < m && es[k].Compute? :: Good(ss[k]) && !Runs(ss[k], i)
    ensures Good(ss[n]) && Good(ss[m]) && i < |ss[m].procs|
    ensures RegsOf(ss[m], i) == RegsOf(ss[n], i)
    decreases m
  {
    hide Good;
    hide Runs;
    hide RegsOf;
    hide StepTo;
    AlwaysGood(ss, es, n);
    AlwaysGood(ss, es, m);
    if n < m {
      ResumesUnchanged(ss, es, n, m - 1, i);
      RunStep(ss, es, m - 1);
      StepKeepsRegs(ss[m - 1], es[m - 1], ss[m], i);
    }
  }

  lemma RunStep(ss: seq<Sys>, es: seq<Event>, k: nat)
    requires IsRun(ss, es) && k < |es|
    ensures StepTo(ss[k], es[k], ss[k + 1])
  {
    hide StepTo;
  }

  lemma AlwaysGood(ss: seq<Sys>, es: seq<Event>, n: nat)
    requires IsRun(ss, es) && n <= |es|
    ensures Good(ss[n])
  {
    var _ := Contexts(ss, es, n);
  }

  /** The registers of process `i`, wherever they are kept. */
  ghost function RegsOf(s: Sys, i: nat): Regs
    requires i < |s.procs|
  {
    if s.procs[i].pid == s.activePid then s.regs else s.procs[i].state
  }

  lemma StepKeepsRegs(s: Sys, e: Event, s': Sys, i: nat)
    requires Good(s) && StepTo(s, e, s') && i < |s.procs| && (e.Compute? ==> !Runs(s, i))
    ensures i < |s'.procs| && RegsOf(s', i) == RegsOf(s, i)
  {
    var ctx := seq(|s.procs|, j requires 0 <= j < |s.procs| => RegsOf(s, j));
    assert Simulates(s, ctx);
    var p := RunningIn(s);
    StepInvisible(s, e, s', p, ctx);
    assert Private(ctx, p, e)[i] == ctx[i];
  }

  // ----- who runs -----

  lemma RunsAlone(s: Sys, p: nat, q: nat)
    requires Runs(s, p) && Runs(s, q)
    ensures p == q
  {
  }

  /** The scheduler alternates between the first two processes of its list: one further on that is not
      running never will. */
  lemma {:induction false} ThirdNeverRuns(ss: seq<Sys>, es: seq<Event>, n: nat, m: nat, i: nat)
    requires IsRun(ss, es) && n <= m <= |es| && 2 <= i < |ss[n].procs| && !Runs(ss[n], i)
    ensures i < |ss[m].procs| && !Runs(ss[m], i)
    decreases m
  {
    hide Good;
    hide Runs;
    hide StepTo;
    if n < m {
      ThirdNeverRuns(ss, es, n, m - 1, i);
      AlwaysGood(ss, es, m - 1);
      RunStep(ss, es, m - 1);
      hide IsRun;
      StepRuns(ss[m - 1], es[m - 1], ss[m], i);
    }
  }

  lemma StepRuns(s: Sys, e: Event, s': Sys, i: nat)
    requires Good(s) && StepTo(s, e, s') && 2 <= i < |s.procs| && !Runs(s, i)
    ensures i < |s'.procs| && !Runs(s', i)
  {
    hide Entered;
    if e == Interrupt {
      var p: nat :| Tick(s, s', p);
      hide StepTo;
      TickRuns(s, s', p, i);
    }
  }

  lemma TickRuns(s: Sys, s': Sys, p: nat, i: nat)
    requires Good(s) && Tick(s, s', p) && 2 <= i < |s.procs| && !Runs(s, i)
    ensures i < |s'.procs| && !Runs(s', i)
  {
    hide Entered;
    hide Pushed;
    if Switches(s) && Runs(s', i) {
      RunsAlone(s', i, s'.currentProcess);
    }
  }

  /** A switch goes from one of the first two processes to the other. */
  lemma SwitchesOver(s: Sys, s': Sys, p: nat)
    requires Good(s) && Tick(s, s', p) && Switches(s)
    ensures s'.currentProcess == 1 - s.currentProcess && Runs(s', 1 - s.currentProcess)
    ensures s'.regs == s'.procs[1 - s.currentProcess].state.(cs := 8)
  {
    hide Entered;
    hide Pushed;
  }

  /** The interrupts among the events from `n` to `m`. */
  function Interrupts(es: seq<Event>, n: nat, m: nat): nat
    requires n <= m <= |es|
    decreases m
  {
    if n == m then 0 else Interrupts(es, n, m - 1) + if es[m - 1].Interrupt? then 1 else 0
  }

  lemma {:induction false} InterruptsSplit(es: seq<Event>, n: nat, k: nat, m: nat)
    requires n <= k <= m <= |es|
    ensures Interrupts(es, n, m) == Interrupts(es, n, k) + Interrupts(es, k, m)
    decreases m
  {
    if k < m {
      InterruptsSplit(es, n, k, m - 1);
    }
  }

  ghost predicate SwitchesAt(ss: seq<Sys>, es: seq<Event>, k: nat)
    requires IsRun(ss, es) && k < |es|
  {
    es[k].Interrupt? && Switches(ss[k])
  }

  ghost predicate NoSwitch(ss: seq<Sys>, es: seq<Event>, n: nat, m: nat)
    requires IsRun(ss, es) && m <= |es|
  {
    forall k | n <= k < m :: !SwitchesAt(ss, es, k)
  }

  /** The scheduler, once started, counts every interrupt. */
  lemma {:induction false} TicksCount(ss: seq<Sys>, es: seq<Event>, n: nat, m: nat)
    requires IsRun(ss, es) && n <= m <= |es| && ss[n].ownerDir.Some?
    requires ss[n].ticks + Interrupts(es, n, m) < 0x1_0000_0000_0000_0000
    ensures ss[m].ticks == ss[n].ticks + Interrupts(es, n, m) && ss[m].ownerDir.Some?
    decreases m
  {
    if n < m {
      TicksCount(ss, es, n, m - 1);
      RunStep(ss, es, m - 1);
      StepTicks(ss[m - 1], es[m - 1], ss[m]);
    }
  }

  lemma StepTicks(s: Sys, e: Event, s': Sys)
    requires StepTo(s, e, s') && s.ownerDir.Some? && (e.Interrupt? ==> s.ticks + 1 < 0x1_0000_0000_0000_0000)
    ensures s'.ticks == s.ticks + (if e.Interrupt? then 1 else 0) && s'.ownerDir.Some?
  {
    hide Entered;
    hide Pushed;
  }

  /** While no interrupt switches, the same process of the pair stays current. */
  lemma {:induction false} CurrentStays(ss: seq<Sys>, es: seq<Event>, n: nat, m: nat)
    requires IsRun(ss, es) && n <= m <= |es| && NoSwitch(ss, es, n, m)
    ensures ss[m].currentProcess == ss[n].currentProcess
    decreases m
  {
    if n < m {
      CurrentStays(ss, es, n, m - 1);
      RunStep(ss, es, m - 1);
      assert !SwitchesAt(ss, es, m - 1);
      hide Entered;
      hide Pushed;
    }
  }

  /** Over whole runs the pair takes turns: of two switches in a row one resumes the one process and the
      next the other. */
  lemma SwitchesAlternate(ss: seq<Sys>, es: seq<Event>, n: nat, m: nat)
    requires IsRun(ss, es) && n < m < |es| && SwitchesAt(ss, es, n) && SwitchesAt(ss, es, m) && NoSwitch(ss, es, n + 1, m)
    ensures ss[n + 1].currentProcess + ss[m + 1].currentProcess == 1
    ensures Runs(ss[n + 1], ss[n + 1].currentProcess) && Runs(ss[m + 1], 1 - ss[n + 1].currentProcess)
  {
    CurrentStays(ss, es, n + 1, m);
    SwitchAt(ss, es, n);
    SwitchAt(ss, es, m);
  }

  lemma SwitchAt(ss: seq<Sys>, es: seq<Event>, k: nat)
    requires IsRun(ss, es) && k < |es| && SwitchesAt(ss, es, k)
    ensures ss[k].currentProcess < 2 && ss[k + 1].currentProcess == 1 - ss[k].currentProcess
    ensures Runs(ss[k + 1], ss[k + 1].currentProcess)
  {
    AlwaysGood(ss, es, k);
    RunStep(ss, es, k);
    var p: nat :| Tick(ss[k], ss[k + 1], p);
    hide IsRun;
    SwitchesOver(ss[k], ss[k + 1], p);
  }

  /** A started scheduler that knows two processes switches exactly at the ticks that are multiples of 50. */
  lemma SwitchesExactly(ss: seq<Sys>, es: seq<Event>, n: nat, m: nat)
    requires IsRun(ss, es) && n <= m < |es| && ss[n].ownerDir.Some? && ss[n].hasProcList && |ss[n].procs| > 1
    requires ss[n].ticks + Interrupts(es, n, m) + 1 < 0x1_0000_0000_0000_0000
    ensures SwitchesAt(ss, es, m) <==> es[m].Interrupt? && (ss[n].ticks + Interrupts(es, n, m) + 1) % 50 == 0
  {
    hide StepTo;
    hide Good;
    hide Interrupts;
    TicksCount(ss, es, n, m);
    StaysStarted(ss, es, n, m);
  }

  lemma {:induction false} StaysStarted(ss: seq<Sys>, es: seq<Event>, n: nat, m: nat)
    requires IsRun(ss, es) && n <= m <= |es| && ss[n].hasProcList && |ss[n].procs| > 1
    ensures ss[m].hasProcList && |ss[m].procs| > 1
    decreases m
  {
    if n < m {
      hide StepTo;
      hide Good;
      StaysStarted(ss, es, n, m - 1);
      RunStep(ss, es, m - 1);
      StepStaysStarted(ss[m - 1], es[m - 1], ss[m]);
    }
  }

  lemma StepStaysStarted(s: Sys, e: Event, s': Sys)
    requires StepTo(s, e, s') && s.hasProcList && |s.procs| > 1
    ensures s'.hasProcList && |s'.procs| > 1
  {
    hide Entered;
    hide Pushed;
  }

  lemma {:induction false} NthInterrupt(es: seq<Event>, n: nat, m: nat, c: nat) returns (k: nat)
    requires n <= m <= |es| && c < Interrupts(es, n, m)
    ensures n <= k < m && es[k].Interrupt? && Interrupts(es, n, k) == c
    decreases m
  {
    if c < Interrupts(es, n, m - 1) {
      k := NthInterrupt(es, n, m - 1, c);
    } else {
      k := m - 1;
    }
  }

  /** So a process that is switched to runs for exactly fifty interrupts. */
  lemma FiftyInterrupts(ss: seq<Sys>, es: seq<Event>, n: nat, m: nat)
    requires IsRun(ss, es) && n < m < |es| && SwitchesAt(ss, es, n) && SwitchesAt(ss, es, m) && NoSwitch(ss, es, n + 1, m)
    requires ss[n].ticks + Interrupts(es, n, m) + 1 < 0x1_0000_0000_0000_0000
    ensures Interrupts(es, n, m) == 50
  {
    hide Good;
    hide StepTo;
    SwitchFacts(ss, es, n);
    SwitchesExactly(ss, es, n, n);
    SwitchesExactly(ss, es, n, m);
    hide IsRun;
    var c := Interrupts(es, n, m);
    InterruptsSplit(es, n, n + 1, m);
    assert Interrupts(es, n, n + 1) == 1;
    MultiplesOf50(ss[n].ticks + 1, c);
    if c > 50 {
      var k := NthInterrupt(es, n, m, 50);
      assert k > n;
      MoreInterrupts(es, n, k, m);
      SwitchesExactly(ss, es, n, k);
    }
  }

  lemma SwitchFacts(ss: seq<Sys>, es: seq<Event>, n: nat)
    requires IsRun(ss, es) && n < |es| && SwitchesAt(ss, es, n)
    ensures ss[n].ownerDir.Some? && ss[n].hasProcList && |ss[n].procs| > 1 && es[n].Interrupt?
  {
    hide StepTo;
    hide Good;
  }

  lemma MoreInterrupts(es: seq<Event>, n: nat, k: nat, m: nat)
    requires n <= k <= m <= |es|
    ensures Interrupts(es, n, k) <= Interrupts(es, n, m)
  {
    InterruptsSplit(es, n, k, m);
  }

  lemma MultiplesOf50(a: nat, c: nat)
    requires a % 50 == 0
    ensures (a + c) % 50 == 0 <==> c % 50 == 0
    ensures (a + 50) % 50 == 0
  {
  }

  // ----- stack memory over whole runs -----

  /** No word within reach below the stack pointer of process `j` lies in these frames. */
  ghost predicate Aside(s: Sys, j: nat, frames: set<nat>)
    requires j < |s.procs|
  {
    forall k | 1 <= k <= 11 :: Below(s.view, s.procs[j].dir, RegsOf(s, j).esp, k).0 !in frames
  }

  /** The word at `x` is one an interrupt of process `i` would leave alone. */
  ghost predicate AboveStack(s: Sys, i: nat, x: Place)
    requires i < |s.procs|
  {
    !Clobbered(s.view, s.procs[i].dir, RegsOf(s, i).esp, 11, x)
  }

  ghost predicate Leaves(s: Sys, s': Sys, frames: set<nat>) {
    forall y: Place | y.0 in frames :: Load(s'.stacks, y) == Load(s.stacks, y)
  }

  /** No page of an address space comes onto these frames or leaves them. */
  ghost predicate KeepsPages(v: Spaces, v': Spaces, dir: nat, frames: set<nat>) {
    forall page :: v(dir, page) in frames || v'(dir, page) in frames ==> v'(dir, page) == v(dir, page)
  }

  /** What the steps between two states have to keep to for the stack of process `i`, in these frames:
      the process itself does not compute, nobody else stores there, none of its own pages is mapped to
      them or taken from them, and every other process's stack pointer stays clear of them. */
  ghost predicate Respects(s: Sys, e: Event, s': Sys, i: nat, frames: set<nat>) {
    && (e.Compute? ==> !Runs(s, i))
    && (e.Compute? || e.Remap? ==> Leaves(s, s', frames))
    && (e.Remap? ==> i < |s.procs| && KeepsPages(s.view, s'.view, s.procs[i].dir, frames))
    && forall j | 0 <= j < |s.procs| && j != i :: Aside(s, j, frames)
  }

  /** Over whole runs: together with its registers a process finds the words on its stack again, each in
      its place. */
  lemma {:induction false} StackResumesUnchanged(ss: seq<Sys>, es: seq<Event>, n: nat, m: nat, i: nat,
                                                 frames: set<nat>, x: Place)
    requires IsRun(ss, es) && n <= m <= |es| && i < |ss[n].procs|
    requires forall k | n <= k < m :: Respects(ss[k], es[k], ss[k + 1], i, frames)
    requires x.0 in frames && AboveStack(ss[n], i, x)
    ensures i < |ss[m].procs| && RegsOf(ss[m], i) == RegsOf(ss[n], i)
    ensures Load(ss[m].stacks, x) == Load(ss[n].stacks, x) && AboveStack(ss[m], i, x)
    decreases m
  {
    if n < m {
      hide Good;
      hide Respects;
      hide RegsOf;
      hide AboveStack;
      hide Load;
      StackResumesUnchanged(ss, es, n, m - 1, i, frames, x);
      AlwaysGood(ss, es, m - 1);
      assert StepTo(ss[m - 1], es[m - 1], ss[m]) && Respects(ss[m - 1], es[m - 1], ss[m], i, frames);
      hide StepTo;
      hide IsRun;
      StepKeepsStack(ss[m - 1], es[m - 1], ss[m], i, frames, x);
    }
  }

  lemma StepKeepsStack(s: Sys, e: Event, s': Sys, i: nat, frames: set<nat>, x: Place)
    requires Good(s) && StepTo(s, e, s') && i < |s.procs| && Respects(s, e, s', i, frames)
    requires x.0 in frames && AboveStack(s, i, x)
    ensures i < |s'.procs| && RegsOf(s', i) == RegsOf(s, i)
    ensures Load(s'.stacks, x) == Load(s.stacks, x) && AboveStack(s', i, x)
  {
    StepKeepsRegs(s, e, s', i);
    StepKeepsDirs(s, e, s', i);
    if e.Remap? {
      StillAbove(s.view, s'.view, s.procs[i].dir, RegsOf(s, i).esp, frames, x);
    }
    hide Below;
    if e == Interrupt {
      var p: nat :| Tick(s, s', p);
      TickKeepsStack(s, s', p, i, frames, x);
    }
  }

  lemma StepKeepsDirs(s: Sys, e: Event, s': Sys, i: nat)
    requires StepTo(s, e, s') && i < |s.procs|
    ensures i < |s'.procs| && s'.procs[i].dir == s.procs[i].dir && (!e.Remap? ==> s'.view == s.view)
  {
  }

  lemma StillAbove(v: Spaces, v': Spaces, dir: nat, esp: U32, frames: set<nat>, x: Place)
    requires KeepsPages(v, v', dir, frames) && x.0 in frames && !Clobbered(v, dir, esp, 11, x)
    ensures !Clobbered(v', dir, esp, 11, x)
  {
    forall k | 1 <= k <= 11 ensures x != Below(v', dir, esp, k) {
      var page := Down(esp, 4 * k) / FRAME_SIZE;
      assert v'(dir, page) in frames ==> v'(dir, page) == v(dir, page);
      assert x != Below(v, dir, esp, k);
      hide Down;
    }
  }

  lemma TickKeepsStack(s: Sys, s': Sys, p: nat, i: nat, frames: set<nat>, x: Place)
    requires Good(s) && Tick(s, s', p) && i < |s.procs| && Respects(s, Interrupt, s', i, frames)
    requires x.0 in frames && AboveStack(s, i, x)
    ensures Load(s'.stacks, x) == Load(s.stacks, x)
  {
    ReachedOnly(s, p, i, frames, x, 11);
    PushedExactly(s.stacks, s.view, s.activeDir, s.regs.esp, InterruptWords(s.regs), x);
    if Switches(s) {
      var q := s'.currentProcess;
      StepKeepsRegs(s, Interrupt, s', q);
      ReachedOnly(s, q, i, frames, x, 3);
      PushedExactly(Entered(s), s.view, s'.activeDir, s'.regs.esp, ResumeWords(s'.regs), x);
    }
  }

  lemma ReachedOnly(s: Sys, j: nat, i: nat, frames: set<nat>, x: Place, words: nat)
    requires i < |s.procs| && j < |s.procs| && words <= 11
    requires j != i ==> Aside(s, j, frames)
    requires x.0 in frames && AboveStack(s, i, x)
    ensures !Clobbered(s.view, s.procs[j].dir, RegsOf(s, j).esp, words, x)
  {
    hide Below;
    hide RegsOf;
  }

  /** Without that the words are gone: an interrupt that does not switch changes exactly the words in the
      eleven places below the interrupted stack pointer, whosever stack they are on as well. */
  lemma InterruptLosesExactly(s: Sys, s': Sys, p: nat, x: Place)
    requires Tick(s, s', p) && !Switches(s)
    ensures Load(s'.stacks, x) != Load(s.stacks, x)
            <==> exists k :: 1 <= k <= 11 && x == Below(s.view, s.activeDir, s.regs.esp, k)
                             && InterruptWords(s.regs)[k - 1] != Load(s.stacks, x)
  {
    PushedExactly(s.stacks, s.view, s.activeDir, s.regs.esp, InterruptWords(s.regs), x);
  }

  // ----- the window between the scheduler's two assignments -----

  /** A tick now reads through the null list. */
  ghost predicate InWindow(s: Sys) { s.ownerDir.Some? && s.hasGetpid && !s.hasProcList }

  /** No start-up gets round it: where the scheduler has its process list and its handler was registered
      before, the machine was in the window on the way. */
  lemma {:induction false} WindowOnTheWay(ss: seq<Sys>, es: seq<Event>, n: nat, m: nat)
    requires IsRun(ss, es) && n <= m <= |es|
    requires ss[n].ownerDir.Some? && !ss[n].hasProcList && ss[m].hasProcList
    ensures exists k :: n <= k < m && InWindow(ss[k])
    decreases m
  {
    assert StepTo(ss[m - 1], es[m - 1], ss[m]);
    HandlerStays(ss, es, n, m - 1);
    if ss[m - 1].hasProcList {
      WindowOnTheWay(ss, es, n, m - 1);
    } else {
      assert InWindow(ss[m - 1]);
    }
  }

  lemma {:induction false} HandlerStays(ss: seq<Sys>, es: seq<Event>, n: nat, m: nat)
    requires IsRun(ss, es) && n <= m <= |es| && ss[n].ownerDir.Some?
    ensures ss[m].ownerDir.Some?
    decreases m
  {
    if n < m {
      HandlerStays(ss, es, n, m - 1);
      assert StepTo(ss[m - 1], es[m - 1], ss[m]);
    }
  }

  /** The scheduler alone, before it has registered anything. */
  function Started(regs: Regs, view: Spaces): Sys {
    Sys(regs.(cs := CODE_SELECTOR), 0, map[], [Proc(1, 0, false, regs.(cs := CODE_SELECTOR))], 1, 0, 0, 0, false, false, None, view)
  }

  /** And it is reached: from there in two steps. */
  lemma WindowReached(regs: Regs, view: Spaces)
    ensures var s := Started(regs, view); var s1 := s.(ownerDir := Some(0)); var s2 := s1.(hasGetpid := true);
      IsRun([s, s1, s2], [SetHandler, SetGetpid]) && Good(s2) && InWindow(s2)
  {
    var s := Started(regs, view);
    var s1 := s.(ownerDir := Some(0));
    var s2 := s1.(hasGetpid := true);
    assert Runs(s, 0) && Runs(s2, 0);
    var ss, es := [s, s1, s2], [SetHandler, SetGetpid];
    assert StepTo(ss[0], es[0], ss[1]) && StepTo(ss[1], es[1], ss[2]);
  }

  // ----- the interrupt path -----

  class Machine {
    var regs: Regs
    var cr3: nat
    var stacks: Stacks
    var procs: seq<Proc>
    var activePid: nat
    var activeDir: nat
    var ticks: nat
    var kernelTicks: nat
    var currentProcess: nat
    var hasGetpid: bool
    var hasProcList: bool
    var ownerDir: Option<nat>
    const view: Spaces

    ghost function View(): Sys
      reads this
    {
      Sys(regs, cr3, stacks, procs, activePid, activeDir, ticks, currentProcess, hasGetpid, hasProcList, ownerDir,
          view)
    }

    constructor (s: Sys)
      ensures View() == s
    {
      regs, cr3, stacks, procs, activePid := s.regs, s.cr3, s.stacks, s.procs, s.activePid;
      activeDir, ticks, currentProcess := s.activeDir, s.ticks, s.currentProcess;
      hasGetpid, hasProcList, ownerDir, kernelTicks := s.hasGetpid, s.hasProcList, s.ownerDir, 0;
      view := s.view;
    }

    /** Pushes words in order. */
    method Push(ws: seq<U32>)
      requires |ws| <= 8
      modifies `regs, `stacks
      ensures regs == old(regs).(esp := Down(old(regs).esp, 4 * |ws|))
      ensures stacks == Pushed(old(stacks), view, cr3, old(regs).esp, ws)
    {
      ghost var esp := regs.esp;
      hide Below;
      for i := 0 to |ws|
        invariant regs == old(regs).(esp := Down(esp, 4 * i))
        invariant stacks == Pushed(old(stacks), view, cr3, esp, ws[..i])
      {
        Further(esp, 4 * i, 4);
        regs := regs.(esp := Down(regs.esp, 4));
        hide Down;
        assert ws[..i + 1][..i] == ws[..i];
        BelowIs(view, cr3, esp, i + 1);
        stacks := stacks[PlaceOf(view, cr3, regs.esp) := ws[i]];
      }
      assert ws[..|ws|] == ws;
    }

    /** Pops words in order. */
    method Pop(n: nat) returns (ws: seq<U32>)
      requires n <= 8
      modifies `regs
      ensures regs == old(regs).(esp := Up(old(regs).esp, 4 * n)) && |ws| == n
      ensures forall k | 0 <= k < n :: ws[k] == Load(stacks, PlaceOf(view, cr3, Up(old(regs).esp, 4 * k)))
    {
      hide PlaceOf;
      ws := [];
      for i := 0 to n
        invariant regs == old(regs).(esp := Up(old(regs).esp, 4 * i)) && |ws| == i
        invariant forall k | 0 <= k < i :: ws[k] == Load(stacks, PlaceOf(view, cr3, Up(old(regs).esp, 4 * k)))
      {
        Further(old(regs).esp, 4 * i, 4);
        ws := ws + [Load(stacks, PlaceOf(view, cr3, regs.esp))];
        regs := regs.(esp := Up(regs.esp, 4));
      }
    }

    /** The words of an interrupt frame, upwards: what `PUSHA` stores, then what the processor does. */
    ghost function FrameWords(r: Regs): (ws: seq<U32>)
      ensures |ws| == 11
    {
      [r.edi, r.esi, r.ebp, Down(r.esp, 12), r.ebx, r.edx, r.ecx, r.eax, r.eip, r.cs, r.eflags]
    }

    ghost predicate FrameAt(frame: U32, r: Regs)
      reads this
    {
      forall k | 0 <= k < 11 :: Load(stacks, PlaceOf(view, cr3, Up(frame, 4 * k))) == FrameWords(r)[k]
    }

    /** The processor's own pushes, then `PUSHA`. */
    method Enter() returns (frame: U32)
      modifies `regs, `stacks
      ensures frame == Down(old(regs).esp, 44) && FrameAt(frame, old(regs))
      ensures stacks == Pushed(old(stacks), view, cr3, old(regs).esp, InterruptWords(old(regs)))
    {
      ghost var r, m := regs, stacks;
      hide Down;
      hide Pushed;
      hide FrameAt;
      Push(First(regs));
      Push(Second(regs));
      frame := regs.esp;
      Further(r.esp, 12, 32);
      PushedMore(m, view, cr3, r.esp, First(r), Second(r.(esp := Down(r.esp, 12))));
      FrameBuilt(m, r);
    }

    lemma FrameBuilt(m: Stacks, r: Regs)
      requires stacks == Pushed(m, view, cr3, r.esp, InterruptWords(r))
      ensures FrameAt(Down(r.esp, 44), r)
    {
      PushedAt(m, view, cr3, r.esp, InterruptWords(r));
      hide Load;
      hide Pushed;
      forall k: nat | k < 11
        ensures Load(stacks, PlaceOf(view, cr3, Up(Down(r.esp, 44), 4 * k))) == FrameWords(r)[k]
      {
        UpFromFrame(r.esp, k);
        BelowIs(view, cr3, r.esp, 11 - k);
        assert Load(stacks, Below(view, cr3, r.esp, 11 - k)) == InterruptWords(r)[10 - k];
        FrameReversed(r, k);
      }
    }

    lemma FrameReversed(r: Regs, k: nat)
      requires k < 11
      ensures FrameWords(r)[k] == InterruptWords(r)[10 - k]
    {
    }

    lemma UpFromFrame(esp: U32, k: nat)
      requires k < 11
      ensures Up(Down(esp, 44), 4 * k) == Down(esp, 4 * (11 - k))
    {
    }

    /** `POPA` and `IRETD` from a frame; the stored stack pointer is skipped. */
    method Leave(frame: U32, ghost r: Regs)
      requires FrameAt(frame, r) && frame == Down(r.esp, 44)
      modifies `regs
      ensures regs == r
    {
      regs := regs.(esp := frame);
      var ws := Pop(8);
      forall k: nat | k < 8 ensures ws[k] == FrameWords(r)[k] {
        FrameWord(frame, r, k);
      }
      regs := regs.(edi := ws[0], esi := ws[1], ebp := ws[2], ebx := ws[4], edx := ws[5], ecx := ws[6], eax := ws[7]);
      var vs := Pop(3);
      forall k: nat | k < 3 ensures vs[k] == FrameWords(r)[8 + k] {
        Further(frame, 32, 4 * k);
        FrameWord(frame, r, 8 + k);
      }
      regs := regs.(eip := vs[0], cs := vs[1], eflags := vs[2]);
      Further(frame, 32, 12);
      UpAgain(r.esp);
    }

    lemma FrameWord(frame: U32, r: Regs, k: nat)
      requires FrameAt(frame, r) && k < 11
      ensures Load(stacks, PlaceOf(view, cr3, Up(frame, 4 * k))) == FrameWords(r)[k]
    {
    }

    lemma UpAgain(esp: U32)
      ensures Up(Down(esp, 44), 44) == esp
    {
    }

    // ----- the scheduler's handler -----

    /** What the handler is shown: the frame's words as registers, the stack pointer as stored. */
    method ReadFrame(frame: U32, ghost r: Regs) returns (state: Regs)
      requires FrameAt(frame, r)
      ensures state == r.(esp := Down(r.esp, 12))
    {
      var ws := seq(11, k requires 0 <= k < 11 reads this => Load(stacks, PlaceOf(view, cr3, Up(frame, 4 * k))));
      forall k: nat | k < 11 ensures ws[k] == FrameWords(r)[k] {
        FrameWord(frame, r, k);
      }
      state := Regs(ws[0], ws[1], ws[2], ws[3], ws[4], ws[5], ws[6], ws[7], ws[8], ws[9], ws[10]);
    }

    method SwitchAddressSpace(dir: nat)
      modifies `activeDir, `cr3
      ensures activeDir == dir
      ensures dir != old(activeDir) ==> cr3 == dir
      ensures dir == old(activeDir) ==> cr3 == old(cr3)
    {
      if dir == activeDir {
        return;
      }
      activeDir := dir;
      cr3 := dir;
    }

    /** `ctxtSwitch` and `resumeProcess`: name the process everywhere, then load its registers by way of
        three words on its own stack. */
    method CtxtSwitch(q: nat) returns (out: Outcome)
      requires q < |procs|
      modifies `regs, `cr3, `stacks, `activePid, `activeDir
      ensures out == if Unresumable(procs[q]) then KernelPanic else Resumed
      ensures out == Resumed ==>
        && activePid == procs[q].pid && activeDir == cr3 == procs[q].dir
        && regs == procs[q].state.(cs := CODE_SELECTOR)
        && stacks == Pushed(old(stacks), view, cr3, regs.esp, ResumeWords(regs))
    {
      activePid := procs[q].pid;
      if procs[q].driver {
        return KernelPanic;
      }
      var state := procs[q].state;
      if state.eip == 0 || state.esp == 0 {
        return KernelPanic;
      }
      activeDir := procs[q].dir;
      ResumeProcess(state, procs[q].dir);
      out := Resumed;
    }

    method ResumeProcess(state: Regs, pageDirectory: nat)
      modifies `regs, `cr3, `stacks
      ensures cr3 == pageDirectory && regs == state.(cs := CODE_SELECTOR)
      ensures stacks == Pushed(old(stacks), view, cr3, state.esp, ResumeWords(state))
    {
      cr3 := pageDirectory;
      regs := regs.(esp := state.esp);
      var words := [state.eflags, CODE_SELECTOR, state.eip];
      Push(words);
      regs := regs.(ebx := state.ebx, ecx := state.ecx, edx := state.edx, edi := state.edi, ebp := state.ebp,
                    eax := state.eax, esi := state.esi);
      ThreeWords(state.esp);
      PushedAt(old(stacks), view, cr3, state.esp, words);
      hide Pushed;
      BelowIs(view, cr3, state.esp, 1);
      BelowIs(view, cr3, state.esp, 2);
      BelowIs(view, cr3, state.esp, 3);
      assert Load(stacks, Below(view, cr3, state.esp, 1)) == words[0];
      assert Load(stacks, Below(view, cr3, state.esp, 2)) == words[1];
      assert Load(stacks, Below(view, cr3, state.esp, 3)) == words[2];
      hide Up;
      hide Down;
      hide Below;
      hide PlaceOf;
      hide Load;
      var vs := Pop(3);
      assert vs[0] == Load(stacks, PlaceOf(view, cr3, Up(Down(state.esp, 12), 4 * 0)));
      assert vs[1] == Load(stacks, PlaceOf(view, cr3, Up(Down(state.esp, 12), 4 * 1)));
      assert vs[2] == Load(stacks, PlaceOf(view, cr3, Up(Down(state.esp, 12), 4 * 2)));
      regs := regs.(eip := vs[0], cs := vs[1], eflags := vs[2]);
    }

    lemma ThreeWords(esp: U32)
      ensures Up(Down(esp, 12), 0) == Down(esp, 12) && Up(Down(esp, 12), 4) == Down(esp, 8)
      ensures Up(Down(esp, 12), 8) == Down(esp, 4) && Up(Down(esp, 12), 12) == esp
    {
    }

    ghost predicate SwitchDue(t: nat)
      reads this
    {
      hasProcList && |procs| > 1 && t % INTERVAL == 0
    }

    /** The process list after saving `r` for process `p`, if the scheduler can. */
    ghost function Saved(p: nat, r: Regs): seq<Proc>
      requires p < |procs|
      reads this
    {
      if hasGetpid then procs[p := procs[p].(state := r)] else procs
    }

    /** Saves the interrupted registers, 12 added to the stored stack pointer, and every 50 ticks
        switches to the other process of the pair. `left` says that the call never returned. */
    method SchedPitHandler(state: Regs, ghost p: nat, ghost r: Regs) returns (out: Outcome, left: bool)
      requires IndexOf(procs, activePid, p) && activePid > 0 && currentProcess < 2 && (hasProcList ==> hasGetpid)
      requires state == r.(esp := Down(r.esp, 12))
      modifies `regs, `cr3, `stacks, `procs, `activePid, `activeDir, `ticks, `currentProcess
      ensures ticks == NextTick(old(ticks))
      ensures out == NullRead <==> hasGetpid && !hasProcList
      ensures out == NullRead ==> left
      ensures out != NullRead ==> procs == old(Saved(p, r))
      ensures out != NullRead ==> (left <==> old(SwitchDue(NextTick(ticks))))
      ensures !left ==> out == Resumed && currentProcess == old(currentProcess) && regs == old(regs) && cr3 == old(cr3)
      ensures !left ==> stacks == old(stacks) && activePid == old(activePid) && activeDir == old(activeDir)
      ensures left && out != NullRead ==>
        && currentProcess == Flip(old(currentProcess)) && currentProcess < |procs|
        && var t := procs[currentProcess];
           && out == (if Unresumable(t) then KernelPanic else Resumed)
           && (out == Resumed ==>
                && activePid == t.pid && activeDir == cr3 == t.dir && regs == t.state.(cs := CODE_SELECTOR)
                && stacks == Pushed(old(stacks), view, cr3, regs.esp, ResumeWords(regs)))
    {
      ghost var want := Saved(p, r);
      out, left := Resumed, false;
      ticks := NextTick(ticks);
      var procPid := if hasGetpid then activePid else 0;
      if procPid != 0 {
        if !hasProcList {
          return NullRead, true;
        }
        var i := 0;
        while i < |procs| && procs[i].pid != procPid
          invariant i <= p
        {
          i := i + 1;
        }
        Further(r.esp, 12, 12);
        procs := procs[i := procs[i].(state := state.(esp := Up(state.esp, 12)))];
        assert procs == want;
      }
      if hasProcList && |procs| > 1 && ticks % INTERVAL == 0 {
        currentProcess := Flip(currentProcess);
        out := CtxtSwitch(currentProcess);
        left := true;
      }
    }

    // ----- the whole interrupt -----

    /** The kernel's handler: shows its owner a copy of the frame, in the owner's address space. */
    method KernelPitHandler(frame: U32, ghost p: nat, ghost r: Regs) returns (out: Outcome, left: bool)
      requires FrameAt(frame, r) && cr3 == activeDir
      requires IndexOf(procs, activePid, p) && activePid > 0 && currentProcess < 2 && (hasProcList ==> hasGetpid)
      modifies `regs, `cr3, `stacks, `procs, `activePid, `activeDir, `ticks, `kernelTicks, `currentProcess
      ensures out == NullRead <==> ownerDir.Some? && hasGetpid && !hasProcList
      ensures out == NullRead ==> left
      ensures ticks == if ownerDir.Some? then NextTick(old(ticks)) else old(ticks)
      ensures kernelTicks == if left then old(kernelTicks) else NextTick(old(kernelTicks))
      ensures out != NullRead ==> procs == if ownerDir.Some? then old(Saved(p, r)) else old(procs)
      ensures out != NullRead ==> (left <==> ownerDir.Some? && old(SwitchDue(NextTick(ticks))))
      ensures !left ==> out == Resumed && currentProcess == old(currentProcess) && cr3 == old(cr3)
      ensures !left ==> stacks == old(stacks) && activePid == old(activePid) && activeDir == old(activeDir)
      ensures left && out != NullRead ==>
        && currentProcess == Flip(old(currentProcess)) && currentProcess < |procs|
        && var t := procs[currentProcess];
           && out == (if Unresumable(t) then KernelPanic else Resumed)
           && (out == Resumed ==>
                && activePid == t.pid && activeDir == cr3 == t.dir && regs == t.state.(cs := CODE_SELECTOR)
                && stacks == Pushed(old(stacks), view, cr3, regs.esp, ResumeWords(regs)))
    {
      out, left := Resumed, false;
      if ownerDir.Some? {
        var ownerVisibleState := ReadFrame(frame, r);
        var interrupted := activeDir;
        SwitchAddressSpace(ownerDir.value);
        out, left := SchedPitHandler(ownerVisibleState, p, r);
        if left {
          return;
        }
        SwitchAddressSpace(interrupted);
      }
      kernelTicks := NextTick(kernelTicks);
    }

    /** A timer interrupt while process `p` runs. It reads through the null list exactly in the window
        between the scheduler's two assignments, panics exactly when the process to switch to cannot be
        resumed, and otherwise is the transition `Tick`. */
    method TimerInterrupt(ghost p: nat) returns (out: Outcome)
      requires Good(View()) && Runs(View(), p)
      modifies this
      ensures out == NullRead <==> old(InWindow(View()))
      ensures out == KernelPanic <==>
        (old(Switches(View())) && Unresumable(old(SavedProcs(View(), p))[Flip(old(currentProcess))]))
      ensures out == Resumed ==> Tick(old(View()), View(), p)
      ensures out == Resumed ==> kernelTicks == if old(Switches(View())) then old(kernelTicks) else NextTick(old(kernelTicks))
    {
      ghost var r, s := regs, View();
      hide Pushed;
      hide InterruptWords;
      hide ResumeWords;
      hide Down;
      var frame := Enter();
      var left;
      out, left := KernelPitHandler(frame, p, r);
      if !left {
        regs := *;  // the handlers use the registers as they like
        Leave(frame, r);
      }
    }
  }
}
