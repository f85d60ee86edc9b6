/** The memory manager: page directories and tables as arrays of 32-bit words, updated in place. A word
    holds a page number in its upper 20 bits and flags below; bit 0 says present. Row `r` of the table
    pool lies at page `tableBase + r`. */
module PageTables {
  import opened Bytes
  import opened Paging

  const PRESENT: nat := 1
  const WRITABLE: nat := 2

  type Flags = x: nat | x < 8

  /** `flgs | 1` */
  function OrPresent(flgs: Flags): Flags {
    if flgs % 2 == 0 then flgs + 1 else flgs
  }

  lemma EvenPart(n: nat, bits: Flags)
    ensures (2 * n + bits) % 2 == bits % 2
  {
  }

  lemma PagePart(page: Page, bits: Flags)
    ensures (page * 4096 + bits) / 4096 == page && (page * 4096 + bits) % 4096 == bits
  {
  }

  lemma WordParts(page: Page, bits: Flags)
    ensures var w := page * 4096 + bits; w < TWO32 && w / 4096 == page && w % 4096 == bits && w % 2 == bits % 2
  {
    var n := page * 2048;
    var w := 2 * n + bits;
    EvenPart(n, bits);
    PagePart(page, bits);
    assert w == page * 4096 + bits;
  }

  function Word(page: Page, bits: Flags): (w: U32)
    ensures w / 4096 == page && w % 4096 == bits && w % 2 == bits % 2
  {
    WordParts(page, bits);
    page * 4096 + bits
  }

  function DecodePte(w: U32): Pte {
    if w % 2 == 0 then Unmapped else Maps(w / 4096, w % 4096)
  }

  /** A present word that points below the pool names no row of it. */
  function DecodePde(tableBase: nat, w: U32): Pde {
    if w % 2 == 0 then Absent
    else if w / 4096 < tableBase then Table(POOL + 1)
    else Table(w / 4096 - tableBase)
  }

  class Mmu {
    const tableBase: nat
    const stackBottom: U32
    const stackTop: U32
    var dirs: array2<U32>
    var tables: array2<U32>
    var nextPageTable: nat
    var nextDirectory: nat
    var activeDirectory: nat

    ghost predicate Shaped()
      reads `dirs, `tables
    {
      && dirs != tables
      && dirs.Length0 == tables.Length0 == POOL + 1 && dirs.Length1 == tables.Length1 == 1024
      && tableBase + POOL < 0x10_0000
      && stackBottom <= stackTop <= 0xFFFF_F000
    }

    ghost function DirRow(d: nat): seq<Pde>
      requires Shaped() && d <= POOL
      reads this, dirs
    {
      seq(1024, i requires 0 <= i < 1024 && Shaped() reads this, dirs => DecodePde(tableBase, dirs[d, i]))
    }

    ghost function TableRow(t: nat): seq<Pte>
      requires Shaped() && t <= POOL
      reads this, tables
    {
      seq(1024, i requires 0 <= i < 1024 && Shaped() reads this, tables => DecodePte(tables[t, i]))
    }

    ghost function State(): Space
      requires Shaped()
      reads this, dirs, tables
    {
      Space(seq(POOL + 1, d requires 0 <= d <= POOL && Shaped() reads this, dirs => DirRow(d)),
            seq(POOL + 1, t requires 0 <= t <= POOL && Shaped() reads this, tables => TableRow(t)),
            nextPageTable, nextDirectory, activeDirectory)
    }

    ghost predicate Valid()
      reads this, dirs, tables
    {
      Shaped() && Inv(State())
    }

    constructor (tableBase: nat, stackBottom: U32, stackTop: U32)
      requires tableBase + POOL < 0x10_0000 && stackBottom <= stackTop <= 0xFFFF_F000
      ensures this.tableBase == tableBase && this.stackBottom == stackBottom && this.stackTop == stackTop
      ensures Shaped() && fresh(dirs) && fresh(tables)
      ensures nextPageTable == nextDirectory == 0
      ensures forall d, i | 0 <= d <= POOL && 0 <= i < 1024 :: dirs[d, i] == tables[d, i] == 0
    {
      this.tableBase, this.stackBottom, this.stackTop := tableBase, stackBottom, stackTop;
      nextPageTable, nextDirectory, activeDirectory := 0, 0, 0;
      dirs := new U32[POOL + 1, 1024]((d, i) => 0);
      tables := new U32[POOL + 1, 1024]((t, i) => 0);
    }

    /** `init`: the kernel sees the first 4 MiB one to one and nothing else. */
    method Init()
      requires Shaped() && nextPageTable == nextDirectory == 0
      requires forall d, i | 0 <= d <= POOL && 0 <= i < 1024 :: dirs[d, i] == tables[d, i] == 0
      modifies this`activeDirectory, dirs, tables
      ensures Valid() && State() == BootSpace()
    {
      for i := 0 to 1024
        invariant forall d, k | 0 <= d <= POOL && 0 <= k < 1024 :: dirs[d, k] == if d == 0 && k < i then 2 else 0
        invariant forall t, k | 0 <= t <= POOL && 0 <= k < 1024 :: tables[t, k] == 0
      {
        dirs[0, i] := 2;
      }
      for i := 0 to 1024
        invariant forall d, k | 0 <= d <= POOL && 0 <= k < 1024 :: dirs[d, k] == if d == 0 then 2 else 0
        invariant forall t, k | 0 <= t <= POOL && 0 <= k < 1024 :: tables[t, k] == if t == 0 && k < i then Word(k, 3) else 0
      {
        tables[0, i] := Word(i, 3);
      }
      dirs[0, 0] := Word(tableBase, 3);
      activeDirectory := 0;
      BootWords();
    }

    lemma BootWords()
      requires Shaped() && nextPageTable == nextDirectory == activeDirectory == 0
      requires forall d, k | 0 <= d <= POOL && 0 <= k < 1024 ::
        dirs[d, k] == if d == 0 then if k == 0 then Word(tableBase, 3) else 2 else 0
      requires forall t, k | 0 <= t <= POOL && 0 <= k < 1024 :: tables[t, k] == if t == 0 then Word(k, 3) else 0
      ensures Valid() && State() == BootSpace()
    {
      var s := State();
      BootSpaceMeans();
      forall d, i: Index | 0 <= d <= POOL ensures At(s, d, i) == At(BootSpace(), d, i) {
        BootPde(d, i);
      }
      forall t, i: Index | 0 <= t <= POOL ensures PteAt(s, t, i) == PteAt(BootSpace(), t, i) {
        BootPte(i);
      }
      hide Inv;
      hide BootSpace;
      SameSpace(s, BootSpace());
    }

    lemma BootPde(d: nat, i: Index)
      requires tableBase + POOL < 0x10_0000
      ensures DecodePde(tableBase, if d == 0 then if i == 0 then Word(tableBase, 3) else 2 else 0)
           == if d == 0 && i == 0 then Table(0) else Absent
    {
    }

    lemma BootPte(i: Index)
      ensures DecodePte(Word(i, 3)) == Maps(i, 3) && DecodePte(0) == Unmapped
    {
    }

    // ----- single writes -----

    method WritePde(d: nat, i: Index, w: U32)
      requires Shaped() && Sized(State()) && d <= POOL
      modifies dirs
      ensures Shaped() && State() == SetPde(old(State()), d, i, DecodePde(tableBase, w))
    {
      ghost var want := SetPde(State(), d, i, DecodePde(tableBase, w));
      dirs[d, i] := w;
      SameSpace(State(), want);
    }

    method WritePte(t: nat, i: Index, w: U32)
      requires Shaped() && Sized(State()) && t <= POOL
      modifies tables
      ensures Shaped() && State() == SetPte(old(State()), t, i, DecodePte(w))
    {
      ghost var want := SetPte(State(), t, i, DecodePte(w));
      tables[t, i] := w;
      SameSpace(State(), want);
    }

    /** Marks every entry of a table absent. */
    method FillTable(t: nat)
      requires Shaped() && Sized(State()) && t <= POOL
      modifies tables
      ensures Shaped() && State() == ClearTable(old(State()), t)
    {
      ghost var want := ClearTable(State(), t);
      for i := 0 to 1024
        invariant forall k | 0 <= k < i :: tables[t, k] == 2
        invariant forall r, k | 0 <= r <= POOL && r != t && 0 <= k < 1024 :: tables[r, k] == old(tables[r, k])
      {
        tables[t, i] := 2;
      }
      SameSpace(State(), want);
    }

    /** Copies the kernel's directory. */
    method CopyKernelDirectory(d: nat)
      requires Shaped() && Sized(State()) && 0 < d <= POOL
      modifies dirs
      ensures Shaped() && State() == old(State()).(dirs := old(State()).dirs[d := old(State()).dirs[0]])
    {
      ghost var want := State().(dirs := State().dirs[d := State().dirs[0]]);
      for i := 0 to 1024
        invariant forall k | 0 <= k < i :: dirs[d, k] == dirs[0, k]
        invariant forall r, k | 0 <= r <= POOL && r != d && 0 <= k < 1024 :: dirs[r, k] == old(dirs[r, k])
      {
        dirs[d, i] := dirs[0, i];
      }
      SameSpace(State(), want);
    }

    lemma ReadPde(d: nat, i: Index)
      requires Valid() && d <= POOL
      ensures At(State(), d, i) == DecodePde(tableBase, dirs[d, i])
      ensures dirs[d, i] % 2 == 1 ==> tableBase <= dirs[d, i] / 4096 <= tableBase + nextPageTable <= tableBase + POOL
    {
      assert At(State(), d, i).Table? ==> At(State(), d, i).row <= nextPageTable;
    }

    // ----- the operations -----

    method TakeTable()
      requires Shaped() && Sized(State()) && nextPageTable < POOL
      modifies this`nextPageTable
      ensures Shaped() && State() == old(State()).(nextTable := old(nextPageTable) + 1)
    {
      ghost var want := State().(nextTable := nextPageTable + 1);
      nextPageTable := nextPageTable + 1;
      SameSpace(State(), want);
    }

    method TakeDirectory()
      requires Shaped() && Sized(State()) && nextDirectory < POOL
      modifies this`nextDirectory
      ensures Shaped() && State() == old(State()).(nextDir := old(nextDirectory) + 1)
    {
      ghost var want := State().(nextDir := nextDirectory + 1);
      nextDirectory := nextDirectory + 1;
      SameSpace(State(), want);
    }

    /** The first half of `mapPageIn`: the table behind a directory entry, made if there is none. */
    method TableFor(dir: nat, i: Index) returns (ok: bool, pageTable: nat)
      requires Valid() && dir <= POOL
      modifies this`nextPageTable, dirs, tables
      ensures Shaped() && Sized(State())
      ensures var s, e := old(State()), At(old(State()), dir, i);
        && (ok <==> e.Table? || s.nextTable < POOL)
        && (ok ==> pageTable <= POOL && pageTable == if e.Table? then e.row else s.nextTable + 1)
        && State() == if !ok || e.Table? then s
                      else SetPde(ClearTable(s.(nextTable := pageTable), pageTable), dir, i, Table(pageTable))
    {
      ReadPde(dir, i);
      hide Inv;
      ok, pageTable := true, 0;
      if dirs[dir, i] % 2 == 0 {
        if nextPageTable >= POOL {
          return false, 0;
        }
        TakeTable();
        pageTable := nextPageTable;
        FillTable(pageTable);
        WritePde(dir, i, Word(tableBase + pageTable, 3));
      } else {
        pageTable := dirs[dir, i] / 4096 - tableBase;
      }
    }

    /** `mapPageIn`; a false result is a kernel panic for want of a page table. */
    method MapPageIn(dir: nat, phys: U32, virt: U32, flgs: Flags) returns (ok: bool)
      requires Valid() && dir <= POOL
      modifies this`nextPageTable, dirs, tables
      ensures Valid()
      ensures var want := MapIn(old(State()), dir, virt / 4096, phys / 4096, OrPresent(flgs));
        && (ok <==> want.Some?)
        && State() == if ok then want.value else old(State())
    {
      var directoryIndex: Index := virt / 0x40_0000;
      var tableIndex: Index := virt / 4096 % 1024;
      assert directoryIndex == Slot(virt / 4096) && tableIndex == Entry(virt / 4096);
      MapInValid(State(), dir, virt / 4096, phys / 4096, OrPresent(flgs));
      hide Inv;
      hide Slot;
      hide Entry;
      var pageTable;
      ok, pageTable := TableFor(dir, directoryIndex);
      if ok {
        WritePte(pageTable, tableIndex, Word(phys / 4096, OrPresent(flgs)));
      }
    }

    lemma MapInValid(p: Space, d: nat, vp: Page, page: Page, flags: nat)
      requires Inv(p) && d <= POOL
      ensures Sized(p)
      ensures MapIn(p, d, vp, page, flags).Some? ==> Inv(MapIn(p, d, vp, page, flags).value)
    {
      if MapIn(p, d, vp, page, flags).Some? {
        MapInTranslates(p, d, vp, page, flags);
      }
    }

    method SwitchAddressSpace(dir: nat)
      requires Valid() && dir <= POOL
      modifies this`activeDirectory
      ensures Valid() && State() == old(State()).(active := dir)
    {
      ghost var want := State().(active := dir);
      assert forall d, i: Index | 0 <= d <= POOL :: At(want, d, i) == At(State(), d, i);
      if dir == activeDirectory {
        return;
      }
      activeDirectory := dir;
      SameSpace(State(), want);
    }

    method UnmapPage(virt: U32)
      requires Valid()
      modifies tables
      ensures Valid() && State() == Unmap(old(State()), virt / 4096)
    {
      UnmapTranslates(State(), virt / 4096);
      var directoryIndex: Index := virt / 0x40_0000;
      var tableIndex: Index := virt / 4096 % 1024;
      assert directoryIndex == Slot(virt / 4096) && tableIndex == Entry(virt / 4096);
      ReadPde(0, directoryIndex);
      if dirs[0, directoryIndex] % 2 == 0 {
        return;
      }
      WritePte(dirs[0, directoryIndex] / 4096 - tableBase, tableIndex, 0);
    }

    /** The first step of running a process: whatever stack it inherited is dropped. */
    method ResetStackSlot(dir: nat)
      requires Valid() && dir <= POOL
      modifies dirs
      ensures Valid() && State() == ResetStack(old(State()), dir)
    {
      ResetTranslates(State(), dir);
      WritePde(dir, STACK_SLOT, 0);
    }

    /** What mapping `left` pages one to one from page `vp` on will leave. */
    ghost function IdentityRest(dir: nat, vp: Page, left: nat): Option<Space>
      requires Valid() && dir <= POOL && vp + left <= 0x10_0000
      reads this, dirs, tables
    {
      MapIdentity(State(), dir, vp, left, 3)
    }

    /** One page of the boot stack, mapped one to one. */
    method MapBootPage(dir: nat, addr: U32, ghost vp: Page, ghost left: nat) returns (ok: bool)
      requires Valid() && dir <= POOL && addr / 4096 == vp && vp + 1 < 0x10_0000 && 0 < left && vp + left <= 0x10_0000
      modifies this`nextPageTable, dirs, tables
      ensures Valid()
      ensures old(IdentityRest(dir, vp, left)) == if ok then IdentityRest(dir, vp + 1, left - 1) else None
    {
      IdentityStep(State(), dir, vp, left);
      hide Inv;
      hide MapIn;
      hide MapIdentity;
      ok := MapPageIn(dir, addr, addr, WRITABLE);
    }

    /** The loop over the boot stack: each of its pages is mapped one to one. */
    method MapBootStack(dir: nat) returns (ok: bool)
      requires Valid() && dir <= POOL
      modifies this`nextPageTable, dirs, tables
      ensures Valid()
      ensures old(MapIdentity(State(), dir, stackBottom / 4096, StackPages(), 3)) == if ok then Some(State()) else None
    {
      StackStarts();
      ghost var vp: Page, left: nat := stackBottom / 4096, StackPages();
      ghost var want := IdentityRest(dir, vp, left);
      hide Valid;
      hide IdentityRest;
      hide AtBootPage;
      var addr: nat := stackBottom;
      while addr < stackTop
        invariant Valid() && AtBootPage(addr, vp, left) && vp + left <= 0x10_0000
        invariant want == IdentityRest(dir, vp, left)
        decreases left
      {
        StackGoesOn(addr, vp, left);
        ok := MapBootPage(dir, addr, vp, left);
        if !ok {
          return;
        }
        addr, vp, left := addr + 0x1000, vp + 1, left - 1;
      }
      StackEnds(dir, addr, vp, left);
      ok := true;
    }

    /** `createAddressSpace`; a false result is a kernel panic for want of a directory or table. */
    method CreateAddressSpace() returns (ok: bool, dir: nat)
      requires Valid()
      modifies this`nextPageTable, this`nextDirectory, dirs, tables
      ensures Shaped()
      ensures var want := Create(old(State()), stackBottom / 4096, StackPages());
        && (ok <==> want.Some?)
        && (ok ==> Valid() && State() == want.value && dir == nextDirectory)
    {
      dir := 0;
      if nextDirectory >= POOL {
        return false, dir;
      }
      ghost var before := State();
      InheritTranslates(before);
      CreateSteps(before);
      hide Inv;
      TakeDirectory();
      dir := nextDirectory;
      CopyKernelDirectory(dir);
      assert State() == Inherit(before);
      ok := MapBootStack(dir);
      if ok {
        ReadPde(activeDirectory, STACK_SLOT);
        WritePde(dir, STACK_SLOT, dirs[activeDirectory, STACK_SLOT]);
      }
    }

    lemma CreateSteps(p: Space)
      requires Shaped() && Inv(p) && p.nextDir < POOL
      ensures Inv(Inherit(p)) && p.active <= POOL
      ensures var m := MapIdentity(Inherit(p), p.nextDir + 1, stackBottom / 4096, StackPages(), 3);
        && (m.None? ==> Create(p, stackBottom / 4096, StackPages()).None?)
        && (m.Some? ==>
              && Inv(m.value) && m.value.active == p.active && m.value.nextDir == p.nextDir + 1
              && var p' := SetPde(m.value, p.nextDir + 1, STACK_SLOT, At(m.value, p.active, STACK_SLOT));
                 Create(p, stackBottom / 4096, StackPages()) == Some(p') && Inv(p'))
    {
      InheritTranslates(p);
      var m := MapIdentity(Inherit(p), p.nextDir + 1, stackBottom / 4096, StackPages(), 3);
      if m.Some? {
        IdentitySteps(Inherit(p), p.nextDir + 1, stackBottom / 4096, StackPages(), 3);
        CopySlot(m.value, p.nextDir + 1, STACK_SLOT, p.active);
      }
    }

    /** `addr` lies on page `vp`, and from there on `left` pages of the boot stack are to be mapped. */
    ghost predicate AtBootPage(addr: nat, vp: Page, left: nat) {
      addr / 4096 == vp && if addr < stackTop then left == (stackTop - addr + 4095) / 4096 else left == 0
    }

    lemma StackStarts()
      requires Shaped()
      ensures stackBottom / 4096 < 0x10_0000 && stackBottom / 4096 + StackPages() <= 0x10_0000
      ensures AtBootPage(stackBottom, stackBottom / 4096, StackPages())
    {
    }

    lemma StackGoesOn(addr: nat, vp: Page, left: nat)
      requires Valid() && addr < stackTop && AtBootPage(addr, vp, left)
      ensures addr < TWO32 && left > 0 && addr / 4096 == vp && vp + 1 < 0x10_0000 && AtBootPage(addr + 0x1000, vp + 1, left - 1)
    {
    }

    lemma StackEnds(dir: nat, addr: nat, vp: Page, left: nat)
      requires Valid() && dir <= POOL && addr >= stackTop && AtBootPage(addr, vp, left)
      ensures left == 0 && Shaped() && IdentityRest(dir, vp, 0) == Some(State())
    {
    }

    lemma IdentityStep(p: Space, dir: nat, from: Page, count: nat)
      requires Inv(p) && dir <= POOL && count > 0 && from + 1 < 0x10_0000 && from + count <= 0x10_0000
      ensures var m := MapIn(p, dir, from, from, 3);
        && (m.None? ==> MapIdentity(p, dir, from, count, 3).None?)
        && (m.Some? ==> Inv(m.value) && MapIdentity(p, dir, from, count, 3) == MapIdentity(m.value, dir, from + 1, count - 1, 3))
    {
      MapInValid(p, dir, from, from, 3);
    }

    /** How many times the loop over the boot stack runs. */
    function StackPages(): nat
      requires stackBottom <= stackTop
    {
      (stackTop - stackBottom + 4095) / 4096
    }
  }
}
