/** Two-level paging as values: directories and page tables drawn from fixed pools, and what every
    operation of the memory manager does to them. Row 0 of each pool is the kernel's own; a slot of a
    directory names a row of the table pool. */
module Paging {
  import opened Bytes

  type Index = i: nat | i < 1024
  type Page = x: nat | x < 0x10_0000

  function PageOf(addr: U32): Page { addr / 4096 }

  datatype Pde = Absent | Table(row: nat)
  datatype Pte = Unmapped | Maps(page: Page, flags: nat)

  datatype Space = Space(dirs: seq<seq<Pde>>, tables: seq<seq<Pte>>, nextTable: nat, nextDir: nat, active: nat)

  const POOL: nat := 16
  const STACK_SLOT: Index := 767  // STACK_BEGIN >> 22

  // ----- virtual pages and their two indices -----

  function Slot(vp: Page): Index { vp / 1024 }

  function Entry(vp: Page): Index { vp % 1024 }

  lemma SamePage(vp: Page, vq: Page)
    ensures Slot(vp) == Slot(vq) && Entry(vp) == Entry(vq) <==> vp == vq
  {
  }

  // ----- the state and its invariant -----

  predicate Sized(p: Space) {
    && |p.dirs| == |p.tables| == POOL + 1
    && (forall d | 0 <= d < |p.dirs| :: |p.dirs[d]| == 1024)
    && (forall t | 0 <= t < |p.tables| :: |p.tables[t]| == 1024)
    && p.nextTable <= POOL && p.nextDir <= POOL && p.active <= POOL
  }

  function At(p: Space, d: nat, i: Index): Pde
    requires Sized(p) && d <= POOL
  {
    p.dirs[d][i]
  }

  function PteAt(p: Space, t: nat, i: Index): Pte
    requires Sized(p) && t <= POOL
  {
    p.tables[t][i]
  }

  lemma SameSpace(p: Space, q: Space)
    requires Sized(p) && Sized(q) && p.nextTable == q.nextTable && p.nextDir == q.nextDir && p.active == q.active
    requires forall d, i: Index | 0 <= d <= POOL :: At(p, d, i) == At(q, d, i)
    requires forall t, i: Index | 0 <= t <= POOL :: PteAt(p, t, i) == PteAt(q, t, i)
    ensures p == q
  {
    forall d | 0 <= d <= POOL ensures p.dirs[d] == q.dirs[d] {
      forall i: Index | true ensures p.dirs[d][i] == q.dirs[d][i] {
        assert At(p, d, i) == At(q, d, i);
      }
    }
    forall t | 0 <= t <= POOL ensures p.tables[t] == q.tables[t] {
      forall i: Index | true ensures p.tables[t][i] == q.tables[t][i] {
        assert PteAt(p, t, i) == PteAt(q, t, i);
      }
    }
  }

  /** Two directories hold the same table in the same slot. */
  ghost predicate Shares(p: Space, a: nat, b: nat, i: Index)
    requires Sized(p) && a <= POOL && b <= POOL
  {
    At(p, a, i).Table? && At(p, a, i) == At(p, b, i)
  }

  /** Every slot names a table that has been handed out, and a table is only ever named by slots of
      one index. */
  ghost predicate Inv(p: Space) {
    && Sized(p)
    && (forall d, i: Index | 0 <= d <= POOL && At(p, d, i).Table? :: At(p, d, i).row <= p.nextTable)
    && forall a, b, i: Index, j: Index | 0 <= a <= POOL && 0 <= b <= POOL && At(p, a, i).Table? && At(p, a, i) == At(p, b, j)
      :: i == j
  }

  /** The frame a virtual page translates to, as the processor walks it. */
  function Translate(p: Space, d: nat, vp: Page): Option<Page>
    requires Inv(p) && d <= POOL
  {
    match At(p, d, Slot(vp))
    case Absent => None
    case Table(row) =>
      match PteAt(p, row, Entry(vp))
      case Unmapped => None
      case Maps(page, _) => Some(page)
  }

  /** What the kernel starts with: the first 4 MiB mapped one to one in its own directory. */
  function BootSpace(): Space {
    Space(seq(POOL + 1, d => seq(1024, i => if d == 0 && i == 0 then Table(0) else Absent)),
          seq(POOL + 1, t => seq(1024, i requires 0 <= i < 1024 => if t == 0 then Maps(i, 3) else Unmapped)), 0, 0, 0)
  }

  lemma BootSpaceMeans()
    ensures Inv(BootSpace())
    ensures forall d, i: Index | 0 <= d <= POOL :: At(BootSpace(), d, i) == if d == 0 && i == 0 then Table(0) else Absent
    ensures forall t, i: Index | 0 <= t <= POOL :: PteAt(BootSpace(), t, i) == if t == 0 then Maps(i, 3) else Unmapped
    ensures forall d, vp: Page | 0 <= d <= POOL ::
      Translate(BootSpace(), d, vp) == if d == 0 && vp < 1024 then Some(vp) else None
    ensures forall a, b, i: Index | 0 <= a <= POOL && 0 <= b <= POOL && a != b :: !Shares(BootSpace(), a, b, i)
  {
    assert forall d, i: Index | 0 <= d <= POOL :: At(BootSpace(), d, i) == if d == 0 && i == 0 then Table(0) else Absent;
    assert forall t, i: Index | 0 <= t <= POOL :: PteAt(BootSpace(), t, i) == if t == 0 then Maps(i, 3) else Unmapped;
  }

  // ----- the operations; `None` is a kernel panic -----

  function SetPde(p: Space, d: nat, i: Index, e: Pde): Space
    requires Sized(p) && d <= POOL
  {
    p.(dirs := p.dirs[d := p.dirs[d][i := e]])
  }

  function SetPte(p: Space, t: nat, i: Index, e: Pte): Space
    requires Sized(p) && t <= POOL
  {
    p.(tables := p.tables[t := p.tables[t][i := e]])
  }

  function ClearTable(p: Space, t: nat): Space
    requires Sized(p) && t <= POOL
  {
    p.(tables := p.tables[t := seq(1024, _ => Unmapped)])
  }

  function MapIn(p: Space, d: nat, vp: Page, page: Page, flags: nat): Option<Space>
    requires Inv(p) && d <= POOL
  {
    if At(p, d, Slot(vp)).Absent? then
      if p.nextTable >= POOL then None
      else
        var row := p.nextTable + 1;
        var p1 := SetPde(ClearTable(p.(nextTable := row), row), d, Slot(vp), Table(row));
        Some(SetPte(p1, row, Entry(vp), Maps(page, flags)))
    else
      Some(SetPte(p, At(p, d, Slot(vp)).row, Entry(vp), Maps(page, flags)))
  }

  /** The table that gets the new entry, and the entries a mapping writes. */
  lemma MapInCells(p: Space, d: nat, vp: Page, page: Page, flags: nat) returns (row: nat)
    requires Inv(p) && d <= POOL && MapIn(p, d, vp, page, flags).Some?
    ensures var p' := MapIn(p, d, vp, page, flags).value;
      && Inv(p') && p'.nextDir == p.nextDir && p'.active == p.active && row <= POOL
      && (At(p, d, Slot(vp)).Table? ==> At(p, d, Slot(vp)) == Table(row))
      && (At(p, d, Slot(vp)).Absent? ==> row > p.nextTable)
    ensures var p' := MapIn(p, d, vp, page, flags).value;
      forall e, i: Index | 0 <= e <= POOL :: At(p', e, i) == if e == d && i == Slot(vp) then Table(row) else At(p, e, i)
    ensures var p' := MapIn(p, d, vp, page, flags).value;
      && (forall t, i: Index | 0 <= t <= POOL && t != row :: PteAt(p', t, i) == PteAt(p, t, i))
      && (forall i: Index | i != Entry(vp) ::
           PteAt(p', row, i) == if At(p, d, Slot(vp)).Table? then PteAt(p, row, i) else Unmapped)
      && PteAt(p', row, Entry(vp)) == Maps(page, flags)
  {
    hide Slot;
    hide Entry;
    var p' := MapIn(p, d, vp, page, flags).value;
    var slot := Slot(vp);
    row := At(p', d, slot).row;
    assert forall e, i: Index | 0 <= e <= POOL :: At(p', e, i) == if e == d && i == slot then Table(row) else At(p, e, i);
    assert forall t, i: Index | 0 <= t <= POOL && t != row :: PteAt(p', t, i) == PteAt(p, t, i);
    assert forall i: Index | i != Entry(vp) ::
      PteAt(p', row, i) == if At(p, d, slot).Table? then PteAt(p, row, i) else Unmapped;
  }

  /** The central fact of paging here: a mapping makes its page translate to the given frame and
      changes that one page only, in exactly the directories that hold the same table there. */
  lemma MapInTranslates(p: Space, d: nat, vp: Page, page: Page, flags: nat)
    requires Inv(p) && d <= POOL && MapIn(p, d, vp, page, flags).Some?
    ensures var p' := MapIn(p, d, vp, page, flags).value;
      && Inv(p') && At(p', d, Slot(vp)).Table?
      && p'.nextDir == p.nextDir && p'.active == p.active
      && forall e, vq: Page | 0 <= e <= POOL ::
        Translate(p', e, vq) == if vq == vp && Shares(p', e, d, Slot(vp)) then Some(page) else Translate(p, e, vq)
  {
    var p' := MapIn(p, d, vp, page, flags).value;
    var slot := Slot(vp);
    var row := MapInCells(p, d, vp, page, flags);
    assert At(p', d, slot) == Table(row);
    hide MapIn;
    hide Slot;
    hide Entry;
    hide At;
    hide PteAt;
    forall e, vq: Page | 0 <= e <= POOL
      ensures Translate(p', e, vq) == if vq == vp && Shares(p', e, d, slot) then Some(page) else Translate(p, e, vq)
    {
      SamePage(vp, vq);
    }
  }

  /** A table made for an absent slot belongs to that directory alone. */
  lemma NewTablePrivate(p: Space, d: nat, vp: Page, page: Page, flags: nat)
    requires Inv(p) && d <= POOL && At(p, d, Slot(vp)).Absent? && MapIn(p, d, vp, page, flags).Some?
    ensures var p' := MapIn(p, d, vp, page, flags).value;
      Sized(p') && forall e | 0 <= e <= POOL && e != d :: !Shares(p', e, d, Slot(vp))
  {
    MapInSlots(p, d, vp, page, flags);
  }

  // ----- creating an address space -----

  function MapIdentity(p: Space, d: nat, from: Page, count: nat, flags: nat): Option<Space>
    requires Inv(p) && d <= POOL && from + count <= 0x10_0000
    decreases count
  {
    if count == 0 then Some(p)
    else
      match MapIn(p, d, from, from, flags)
      case None => None
      case Some(p') =>
        MapInTranslates(p, d, from, from, flags);
        if count == 1 then Some(p') else MapIdentity(p', d, from + 1, count - 1, flags)
  }

  /** The next directory of the pool starts as a copy of the kernel's. */
  function Inherit(p: Space): Space
    requires Sized(p) && p.nextDir < POOL
  {
    p.(nextDir := p.nextDir + 1, dirs := p.dirs[p.nextDir + 1 := p.dirs[0]])
  }

  lemma InheritTranslates(p: Space)
    requires Inv(p) && p.nextDir < POOL
    ensures Inv(Inherit(p))
    ensures forall e, i: Index | 0 <= e <= POOL :: At(Inherit(p), e, i) == At(p, if e == p.nextDir + 1 then 0 else e, i)
    ensures forall e, vq: Page | 0 <= e <= POOL ::
      Translate(Inherit(p), e, vq) == Translate(p, if e == p.nextDir + 1 then 0 else e, vq)
  {
    var p' := Inherit(p);
    assert forall e, i: Index | 0 <= e <= POOL :: At(p', e, i) == At(p, if e == p.nextDir + 1 then 0 else e, i);
    assert forall t, i: Index | 0 <= t <= POOL :: PteAt(p', t, i) == PteAt(p, t, i);
  }

  /** `createAddressSpace`: inherit the kernel's slots, map the boot stack, and take over the stack
      slot of whoever is running. `from` and `count` describe the boot stack. */
  function Create(p: Space, from: Page, count: nat): Option<Space>
    requires Inv(p) && from + count <= 0x10_0000
  {
    if p.nextDir >= POOL then None
    else
      InheritTranslates(p);
      var n := p.nextDir + 1;
      match MapIdentity(Inherit(p), n, from, count, 3)
      case None => None
      case Some(p2) => IdentitySteps(Inherit(p), n, from, count, 3); Some(SetPde(p2, n, STACK_SLOT, At(p2, p2.active, STACK_SLOT)))
  }

  /** A run of identity mappings in one directory: it gains pages of that range, may gain tables, and
      shares nothing it did not share before. */
  lemma {:induction false} IdentitySteps(p: Space, d: nat, from: Page, count: nat, flags: nat)
    requires Inv(p) && d <= POOL && from + count <= 0x10_0000 && MapIdentity(p, d, from, count, flags).Some?
    ensures var p' := MapIdentity(p, d, from, count, flags).value;
      && Inv(p') && p'.nextDir == p.nextDir && p'.active == p.active
      && (forall e, i: Index | 0 <= e <= POOL && (e != d || At(p, e, i).Table?) :: At(p', e, i) == At(p, e, i))
      && forall e, i: Index | 0 <= e <= POOL && e != d && Shares(p', e, d, i) :: Shares(p, e, d, i)
    decreases count
  {
    if count > 0 {
      MapInTranslates(p, d, from, from, flags);
      MapInSlots(p, d, from, from, flags);
      if count > 1 {
        IdentitySteps(MapIn(p, d, from, from, flags).value, d, from + 1, count - 1, flags);
      }
    }
  }

  lemma MapInSlots(p: Space, d: nat, vp: Page, page: Page, flags: nat)
    requires Inv(p) && d <= POOL && MapIn(p, d, vp, page, flags).Some?
    ensures var p' := MapIn(p, d, vp, page, flags).value;
      && Sized(p') && p.nextTable <= p'.nextTable
      && (forall e, i: Index | 0 <= e <= POOL && (e != d || i != Slot(vp) || At(p, e, i).Table?) :: At(p', e, i) == At(p, e, i))
      && (At(p, d, Slot(vp)).Absent? ==> At(p', d, Slot(vp)) == Table(p'.nextTable) && p'.nextTable == p.nextTable + 1)
      && (At(p, d, Slot(vp)).Table? ==> p'.nextTable == p.nextTable && p'.dirs == p.dirs)
      && forall a, b, i: Index | 0 <= a <= POOL && 0 <= b <= POOL && a != b && Shares(p', a, b, i) :: Shares(p, a, b, i)
  {
    var p' := MapIn(p, d, vp, page, flags).value;
    assert forall e, i: Index | 0 <= e <= POOL && (e != d || i != Slot(vp)) :: At(p', e, i) == At(p, e, i);
  }

  /** The kernel maps the boot stack one to one. */
  ghost predicate BootStackMapped(p: Space, from: Page, count: nat)
    requires Inv(p) && from + count <= 0x10_0000
  {
    forall vq: Page | from <= vq < from + count :: Translate(p, 0, vq) == Some(vq) && Slot(vq) != STACK_SLOT
  }

  /** Mapping pages one to one that are mapped one to one already changes no translation. */
  lemma {:induction false} IdentityAgain(p: Space, d: nat, from: Page, count: nat, flags: nat)
    requires Inv(p) && d <= POOL && from + count <= 0x10_0000
    requires forall vq: Page | from <= vq < from + count :: Translate(p, d, vq) == Some(vq)
    ensures MapIdentity(p, d, from, count, flags).Some?
    ensures var p' := MapIdentity(p, d, from, count, flags).value;
      && Inv(p') && p'.dirs == p.dirs && p'.nextTable == p.nextTable && p'.nextDir == p.nextDir && p'.active == p.active
      && forall e, vq: Page | 0 <= e <= POOL :: Translate(p', e, vq) == Translate(p, e, vq)
    decreases count
  {
    if count > 0 {
      assert Translate(p, d, from) == Some(from);
      MapInTranslates(p, d, from, from, flags);
      MapInSlots(p, d, from, from, flags);
      var p1 := MapIn(p, d, from, from, flags).value;
      forall e, vq: Page | 0 <= e <= POOL ensures Translate(p1, e, vq) == Translate(p, e, vq) {
        if vq == from && Shares(p1, e, d, Slot(from)) {
          assert At(p, e, Slot(from)) == At(p1, e, Slot(from)) && At(p, d, Slot(from)) == At(p1, d, Slot(from));
        }
      }
      if count > 1 {
        IdentityAgain(p1, d, from + 1, count - 1, flags);
      }
    }
  }

  /** A new address space sees what the kernel sees, and the stack of whoever created it; nobody
      else's view changes. In particular a process that is created and never given a stack of its own
      runs on its creator's stack frames. */
  lemma CreateTranslates(p: Space, from: Page, count: nat)
    requires Inv(p) && from + count <= 0x10_0000 && p.nextDir < POOL && BootStackMapped(p, from, count)
    requires p.active <= p.nextDir
    ensures Create(p, from, count).Some?
    ensures var p' := Create(p, from, count).value;
      && Inv(p') && p'.nextDir == p.nextDir + 1 && p'.active == p.active && p'.nextTable == p.nextTable
      && (forall e, i: Index | 0 <= e <= POOL ::
        At(p', e, i) == At(p, if e != p'.nextDir then e else if i == STACK_SLOT then p.active else 0, i))
      && forall e, vq: Page | 0 <= e <= POOL ::
        Translate(p', e, vq) == Translate(p, if e != p'.nextDir then e
                                             else if Slot(vq) == STACK_SLOT then p.active else 0, vq)
  {
    var n := p.nextDir + 1;
    var p1 := Inherit(p);
    InheritTranslates(p);
    forall vq: Page | from <= vq < from + count ensures Translate(p1, n, vq) == Some(vq) {
      assert Translate(p, 0, vq) == Some(vq);
    }
    IdentityAgain(p1, n, from, count, 3);
    var p2 := MapIdentity(p1, n, from, count, 3).value;
    assert forall e, i: Index | 0 <= e <= POOL :: At(p2, e, i) == At(p1, e, i);
    CopySlot(p2, n, STACK_SLOT, p2.active);
  }

  lemma CopySlot(p: Space, d: nat, i: Index, from: nat)
    requires Inv(p) && d <= POOL && from <= POOL
    ensures var p' := SetPde(p, d, i, At(p, from, i));
      && Inv(p')
      && (forall e, j: Index | 0 <= e <= POOL :: At(p', e, j) == At(p, if e == d && j == i then from else e, j))
      && forall e, vq: Page | 0 <= e <= POOL ::
        Translate(p', e, vq) == Translate(p, if e == d && Slot(vq) == i then from else e, vq)
  {
    var p' := SetPde(p, d, i, At(p, from, i));
    assert forall e, j: Index | 0 <= e <= POOL :: At(p', e, j) == At(p, if e == d && j == i then from else e, j);
    assert forall t, j: Index | 0 <= t <= POOL :: PteAt(p', t, j) == PteAt(p, t, j);
  }

  // ----- the stack slot of a process about to run, and unmapping -----

  function ResetStack(p: Space, d: nat): Space
    requires Inv(p) && d <= POOL
  {
    SetPde(p, d, STACK_SLOT, Absent)
  }

  lemma ResetTranslates(p: Space, d: nat)
    requires Inv(p) && d <= POOL
    ensures var p' := ResetStack(p, d);
      && Inv(p')
      && (forall e, j: Index | 0 <= e <= POOL :: At(p', e, j) == if e == d && j == STACK_SLOT then Absent else At(p, e, j))
      && forall e, vq: Page | 0 <= e <= POOL ::
        Translate(p', e, vq) == if e == d && Slot(vq) == STACK_SLOT then None else Translate(p, e, vq)
  {
    var p' := ResetStack(p, d);
    assert forall e, j: Index | 0 <= e <= POOL :: At(p', e, j) == if e == d && j == STACK_SLOT then Absent else At(p, e, j);
    assert forall t, j: Index | 0 <= t <= POOL :: PteAt(p', t, j) == PteAt(p, t, j);
  }

  /** `unmapPage` works on the kernel's directory only. */
  function Unmap(p: Space, vp: Page): Space
    requires Inv(p)
  {
    match At(p, 0, Slot(vp))
    case Absent => p
    case Table(row) => SetPte(p, row, Entry(vp), Unmapped)
  }

  lemma UnmapTranslates(p: Space, vp: Page)
    requires Inv(p)
    ensures var p' := Unmap(p, vp);
      && Inv(p') && p'.dirs == p.dirs
      && forall e, vq: Page | 0 <= e <= POOL ::
        Translate(p', e, vq) == if vq == vp && Shares(p, e, 0, Slot(vp)) then None else Translate(p, e, vq)
  {
    var p' := Unmap(p, vp);
    if At(p, 0, Slot(vp)).Table? {
      var row := At(p, 0, Slot(vp)).row;
      assert forall t, i: Index | 0 <= t <= POOL ::
        PteAt(p', t, i) == if t == row && i == Entry(vp) then Unmapped else PteAt(p, t, i);
      assert forall e, i: Index | 0 <= e <= POOL :: At(p', e, i) == At(p, e, i);
      forall e, vq: Page | 0 <= e <= POOL
        ensures Translate(p', e, vq) == if vq == vp && Shares(p, e, 0, Slot(vp)) then None else Translate(p, e, vq)
      {
        SamePage(vp, vq);
      }
    }
  }

  lemma SetActive(s: Space, d: nat)
    requires Inv(s) && d <= POOL
    ensures var s' := s.(active := d);
      && Inv(s')
      && (forall e, i: Index | 0 <= e <= POOL :: At(s', e, i) == At(s, e, i))
      && forall e, vq: Page | 0 <= e <= POOL :: Translate(s', e, vq) == Translate(s, e, vq)
  {
    var s' := s.(active := d);
    assert forall e, i: Index | 0 <= e <= POOL :: At(s', e, i) == At(s, e, i);
    assert forall t, i: Index | 0 <= t <= POOL :: PteAt(s', t, i) == PteAt(s, t, i);
  }

  // ----- whole runs -----

  datatype Step =
    | MapStep(dir: nat, vp: Page, page: Page, flags: nat)
    | CreateStep(from: Page, count: nat)
    | ResetStackStep(dir: nat)
    | SwitchStep(dir: nat)
    | UnmapStep(vp: Page)

  /** Callers only pass directories that exist. */
  predicate Allowed(p: Space, s: Step) {
    match s
    case MapStep(d, _, _, _) => d <= p.nextDir
    case CreateStep(from, count) => from + count <= 0x10_0000
    case ResetStackStep(d) => 0 < d <= p.nextDir
    case SwitchStep(d) => d <= p.nextDir
    case UnmapStep(_) => true
  }

  function Next(p: Space, s: Step): (r: Option<Space>)
    requires Inv(p) && Allowed(p, s)
  {
    match s
    case MapStep(d, vp, page, flags) => MapIn(p, d, vp, page, flags)
    case CreateStep(from, count) => Create(p, from, count)
    case ResetStackStep(d) => Some(ResetStack(p, d))
    case SwitchStep(d) => Some(p.(active := d))
    case UnmapStep(vp) => Some(Unmap(p, vp))
  }

  /** Every step keeps the invariant. Directories come to share a table only by the creation of one of
      them, which copies the kernel's slot or, for the stack slot, the slot of the running one. */
  lemma StepShares(p: Space, s: Step)
    requires Inv(p) && Allowed(p, s) && Next(p, s).Some?
    ensures var p' := Next(p, s).value;
      && Inv(p')
      && forall a, b, i: Index | 0 <= a <= POOL && 0 <= b <= POOL && a != b && Shares(p', a, b, i) ::
        || Shares(p, a, b, i)
        || (s.CreateStep? && (a == p'.nextDir || b == p'.nextDir) && Inherited(p', i))
  {
    match s
    case MapStep(d, vp, page, flags) =>
      MapInTranslates(p, d, vp, page, flags);
      MapInSlots(p, d, vp, page, flags);
    case CreateStep(from, count) =>
      CreateShares(p, from, count);
    case ResetStackStep(d) =>
      ResetTranslates(p, d);
    case SwitchStep(d) =>
      assert forall e, i: Index | 0 <= e <= POOL :: At(p.(active := d), e, i) == At(p, e, i);
    case UnmapStep(vp) =>
      UnmapTranslates(p, vp);
      assert forall e, i: Index | 0 <= e <= POOL :: At(Unmap(p, vp), e, i) == At(p, e, i);
  }

  /** The newest directory has this slot from the kernel, or from the running directory. */
  ghost predicate Inherited(p: Space, i: Index)
    requires Sized(p)
  {
    if i == STACK_SLOT then At(p, p.nextDir, i) == At(p, p.active, i) else At(p, p.nextDir, i) == At(p, 0, i)
  }

  /** Creation writes no directory but the new one, whose slots, as far as it shares them, are the
      kernel's and in the stack's slot the running directory's. */
  lemma CreateCells(p: Space, from: Page, count: nat)
    requires Inv(p) && from + count <= 0x10_0000 && Create(p, from, count).Some?
    ensures var p' := Create(p, from, count).value;
      && Inv(p') && p'.nextDir == p.nextDir + 1
      && (forall e, i: Index | 0 <= e <= POOL && e != p'.nextDir :: At(p', e, i) == At(p, e, i))
      && forall e, i: Index | 0 <= e <= POOL && e != p'.nextDir && Shares(p', e, p'.nextDir, i) :: Inherited(p', i)
  {
    var n := p.nextDir + 1;
    var p1 := Inherit(p);
    InheritTranslates(p);
    IdentitySteps(p1, n, from, count, 3);
    var p2 := MapIdentity(p1, n, from, count, 3).value;
    CopySlot(p2, n, STACK_SLOT, p2.active);
    var p' := SetPde(p2, n, STACK_SLOT, At(p2, p2.active, STACK_SLOT));
    assert p' == Create(p, from, count).value && p'.nextDir == n && Inherited(p', STACK_SLOT);
    hide Create;
    hide Inherit;
    hide MapIdentity;
    hide SetPde;
    forall e, i: Index | 0 <= e <= POOL && e != n && Shares(p', e, n, i) ensures Inherited(p', i) {
      if i != STACK_SLOT {
        assert Shares(p2, e, n, i);
        assert Shares(p1, e, n, i);
        assert At(p1, n, i) == At(p, 0, i) == At(p', 0, i);
      }
    }
  }

  lemma CreateShares(p: Space, from: Page, count: nat)
    requires Inv(p) && from + count <= 0x10_0000 && Create(p, from, count).Some?
    ensures var p' := Create(p, from, count).value;
      && Inv(p') && p'.nextDir == p.nextDir + 1
      && forall a, b, i: Index | 0 <= a <= POOL && 0 <= b <= POOL && a != b && Shares(p', a, b, i) ::
        || Shares(p, a, b, i)
        || ((a == p'.nextDir || b == p'.nextDir) && Inherited(p', i))
  {
    CreateCells(p, from, count);
    var p' := Create(p, from, count).value;
    hide Create;
    hide Inherited;
    forall a, b, i: Index | 0 <= a <= POOL && 0 <= b <= POOL && a != b && Shares(p', a, b, i)
      ensures Shares(p, a, b, i) || ((a == p'.nextDir || b == p'.nextDir) && Inherited(p', i))
    {
      if a == p'.nextDir {
        assert Shares(p', b, a, i);
      }
    }
  }

  /** The states a sequence of steps passes through; it stops at a panic or a step not allowed. */
  ghost predicate IsRun(states: seq<Space>, steps: seq<Step>) {
    && |states| == |steps| + 1 && Inv(states[0])
    && forall k | 0 <= k < |steps| :: StepTo(states[k], steps[k], states[k + 1])
  }

  ghost predicate StepTo(p: Space, s: Step, p': Space) {
    Inv(p) && Allowed(p, s) && Next(p, s) == Some(p')
  }

  /** Over whole runs from boot: wherever two directories share a table, one of
      them got it at its creation, by inheritance, from the other or from where the other got it. */
  lemma {:induction false} SharingIsInherited(states: seq<Space>, steps: seq<Step>, a: nat, b: nat, i: Index)
    requires IsRun(states, steps) && a <= POOL && b <= POOL && a != b
    requires states[0] == BootSpace()
    ensures Inv(states[|steps|])
    ensures Shares(states[|steps|], a, b, i) ==>
      exists k :: 0 <= k < |steps| && steps[k].CreateStep? && BornSharing(states[k + 1], a, b, i)
    decreases |steps|
  {
    if |steps| == 0 {
      BootSpaceMeans();
    } else {
      var last := |steps| - 1;
      assert StepTo(states[last], steps[last], states[last + 1]);
      StepShares(states[last], steps[last]);
      var states', steps' := states[..last + 1], steps[..last];
      assert IsRun(states', steps') by {
        forall k | 0 <= k < |steps'| ensures StepTo(states'[k], steps'[k], states'[k + 1]) {
          assert StepTo(states[k], steps[k], states[k + 1]);
        }
      }
      SharingIsInherited(states', steps', a, b, i);
      if Shares(states[last + 1], a, b, i) {
        if Shares(states[last], a, b, i) {
          var k :| 0 <= k < |steps'| && steps'[k].CreateStep? && BornSharing(states'[k + 1], a, b, i);
          assert steps[k].CreateStep? && BornSharing(states[k + 1], a, b, i);
        } else {
          assert BornSharing(states[last + 1], a, b, i);
        }
      }
    }
  }

  /** In the state right after its creation, one of the two directories is the newest, already shares
      the slot with the other, and has it by inheritance. */
  ghost predicate BornSharing(p: Space, a: nat, b: nat, i: Index) {
    && Inv(p) && a <= POOL && b <= POOL && (a == p.nextDir || b == p.nextDir)
    && Shares(p, a, b, i) && Inherited(p, i)
  }

  // ----- stacks over whole runs -----

  /** Directories not handed out yet are empty. */
  ghost predicate Unborn(p: Space)
    requires Sized(p)
  {
    forall e, i: Index | p.nextDir < e <= POOL :: At(p, e, i).Absent?
  }

  lemma StepKeepsUnborn(p: Space, s: Step)
    requires Inv(p) && Unborn(p) && Allowed(p, s) && Next(p, s).Some?
    ensures var p' := Next(p, s).value;
      && Inv(p') && Unborn(p') && p.nextDir <= p'.nextDir
      && (s.CreateStep? ==> forall e, i: Index | 0 <= e <= p.nextDir :: At(p', e, i) == At(p, e, i))
  {
    StepShares(p, s);
    match s
    case MapStep(d, vp, page, flags) =>
      MapInTranslates(p, d, vp, page, flags);
      MapInSlots(p, d, vp, page, flags);
    case CreateStep(from, count) =>
      CreateCells(p, from, count);
    case ResetStackStep(d) =>
      ResetTranslates(p, d);
    case SwitchStep(d) =>
      SetActive(p, d);
    case UnmapStep(vp) =>
      UnmapTranslates(p, vp);
      assert forall e, i: Index | 0 <= e <= POOL :: At(Unmap(p, vp), e, i) == At(p, e, i);
  }

  /** `a` and `b` came to share their stack at step `k`, and neither got a stack of its own before `n`. */
  ghost predicate OneFamily(states: seq<Space>, steps: seq<Step>, a: nat, b: nat, k: nat, n: nat)
    requires |states| == |steps| + 1 && k < n <= |steps|
  {
    && steps[k].CreateStep? && BornSharing(states[k + 1], a, b, STACK_SLOT)
    && forall j | k < j < n :: steps[j] != ResetStackStep(a) && steps[j] != ResetStackStep(b)
  }

  lemma StackStepShares(p: Space, s: Step, a: nat, b: nat)
    requires Inv(p) && Unborn(p) && Allowed(p, s) && Next(p, s).Some? && a <= POOL && b <= POOL && a != b
    ensures var p' := Next(p, s).value;
      && Inv(p')
      && (Shares(p', a, b, STACK_SLOT) <==>
            || (Shares(p, a, b, STACK_SLOT) && s != ResetStackStep(a) && s != ResetStackStep(b))
            || (s.CreateStep? && BornSharing(p', a, b, STACK_SLOT)))
  {
    StepShares(p, s);
    StepKeepsUnborn(p, s);
    match s
    case MapStep(d, vp, page, flags) =>
      MapInSlots(p, d, vp, page, flags);
    case CreateStep(from, count) =>
    case ResetStackStep(d) =>
      ResetTranslates(p, d);
    case SwitchStep(d) =>
      SetActive(p, d);
    case UnmapStep(vp) =>
      UnmapTranslates(p, vp);
      assert forall e, i: Index | 0 <= e <= POOL :: At(Unmap(p, vp), e, i) == At(p, e, i);
  }

  /** Over whole runs from boot: two processes are on the same stack frames exactly when they came to
      share them at the creation of one of them and neither has been run since. */
  lemma {:induction false} StackSharedExactly(states: seq<Space>, steps: seq<Step>, a: nat, b: nat, n: nat)
    requires IsRun(states, steps) && states[0] == BootSpace() && n <= |steps| && a <= POOL && b <= POOL && a != b
    ensures Inv(states[n]) && Unborn(states[n])
    ensures Shares(states[n], a, b, STACK_SLOT) <==> exists k :: 0 <= k < n && OneFamily(states, steps, a, b, k, n)
    decreases n
  {
    BootSpaceMeans();
    if n > 0 {
      var m := n - 1;
      StackSharedExactly(states, steps, a, b, m);
      assert StepTo(states[m], steps[m], states[n]);
      StepKeepsUnborn(states[m], steps[m]);
      StackStepShares(states[m], steps[m], a, b);
      hide Inv;
      hide Unborn;
      hide Shares;
      hide Next;
      hide BornSharing;
      FamilyGrows(states, steps, a, b, m, n);
    }
  }

  lemma FamilyGrows(states: seq<Space>, steps: seq<Step>, a: nat, b: nat, m: nat, n: nat)
    requires |states| == |steps| + 1 && n == m + 1 && n <= |steps|
    ensures (exists k :: 0 <= k < n && OneFamily(states, steps, a, b, k, n)) <==>
      || ((exists k :: 0 <= k < m && OneFamily(states, steps, a, b, k, m))
          && steps[m] != ResetStackStep(a) && steps[m] != ResetStackStep(b))
      || (steps[m].CreateStep? && BornSharing(states[n], a, b, STACK_SLOT))
  {
    if k: nat :| k < n && OneFamily(states, steps, a, b, k, n) {
      if k < m {
        assert OneFamily(states, steps, a, b, k, m);
      }
    }
    if k: nat :| k < m && OneFamily(states, steps, a, b, k, m) {
      assert steps[m] != ResetStackStep(a) && steps[m] != ResetStackStep(b) ==> OneFamily(states, steps, a, b, k, n);
    }
    if steps[m].CreateStep? && BornSharing(states[n], a, b, STACK_SLOT) {
      assert OneFamily(states, steps, a, b, m, n);
    }
  }
}
