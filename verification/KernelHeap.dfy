/** The heap in memory: the block list as bytes, walked and changed in place by `alloc` and `free`. */
module KernelHeap {
  import opened Bytes
  import opened Heap

  // ----- headers in memory -----

  function StoreU32(mem: seq<Byte>, a: nat, v: U32): (m: seq<Byte>)
    requires a + 4 <= |mem|
    ensures |m| == |mem| && U32At(m, a) == v
    ensures forall i | 0 <= i < |mem| && !(a <= i < a + 4) :: m[i] == mem[i]
  {
    var m := mem[a := Le32(v)[0]][a + 1 := Le32(v)[1]][a + 2 := Le32(v)[2]][a + 3 := Le32(v)[3]];
    assert m[a..a + 4] == Le32(v);
    Le32At(m, a, v);
    m
  }

  function NextAddr(blocks: seq<Block>, k: nat): U32
    requires k < |blocks|
  {
    if k + 1 < |blocks| then blocks[k + 1].addr else 0
  }

  /** The nine bytes at a block's address spell out its header. */
  ghost predicate HeaderAt(mem: seq<Byte>, b: Block, next: U32) {
    && b.addr + HEADER <= |mem|
    && U32At(mem, b.addr) == b.size && (mem[b.addr + 4] != 0) == b.inUse && U32At(mem, b.addr + 5) == next
  }

  ghost predicate Linked(mem: seq<Byte>, blocks: seq<Block>) {
    forall k | 0 <= k < |blocks| :: LinkAt(mem, blocks, k)
  }

  ghost predicate LinkAt(mem: seq<Byte>, blocks: seq<Block>, k: nat)
    requires k < |blocks|
  {
    HeaderAt(mem, blocks[k], NextAddr(blocks, k))
  }

  /** An address inside some payload. */
  ghost predicate InPayload(blocks: seq<Block>, a: nat) {
    exists k :: 0 <= k < |blocks| && PayloadHolds(blocks[k], a)
  }

  predicate PayloadHolds(b: Block, a: nat) { Payload(b) <= a < End(b) }

  /** An address inside the header of some block. */
  ghost predicate InHeader(blocks: seq<Block>, a: nat) {
    exists k :: 0 <= k < |blocks| && HeaderHolds(blocks[k], a)
  }

  predicate HeaderHolds(b: Block, a: nat) { b.addr <= a < b.addr + HEADER }

  lemma SameHeader(mem: seq<Byte>, mem': seq<Byte>, b: Block, next: U32)
    requires HeaderAt(mem, b, next) && |mem'| == |mem|
    requires forall i | b.addr <= i < b.addr + HEADER :: mem'[i] == mem[i]
    ensures HeaderAt(mem', b, next)
  {
  }

  lemma HeadersApart(blocks: seq<Block>, start: U32, j: nat, k: nat)
    requires Tiles(blocks, start) && j < |blocks| && k < |blocks| && j != k
    ensures Payload(blocks[j]) <= blocks[k].addr || Payload(blocks[k]) <= blocks[j].addr
  {
    if j < k {
      TilesOrdered(blocks, start, j, k);
    } else {
      TilesOrdered(blocks, start, k, j);
    }
  }

  /** Payload bytes and header bytes are different bytes. */
  lemma PayloadNotHeader(blocks: seq<Block>, start: U32, k: nat, a: nat)
    requires Tiles(blocks, start) && k < |blocks| && InPayload(blocks, a)
    ensures !(blocks[k].addr <= a < blocks[k].addr + HEADER)
  {
    var j: nat :| j < |blocks| && PayloadHolds(blocks[j], a);
    if j < k {
      TilesOrdered(blocks, start, j, k);
    } else if k < j {
      TilesOrdered(blocks, start, k, j);
    }
  }

  /** Whatever a caller writes into payloads, the list stays as it is. */
  lemma PayloadWritesKeepList(mem: seq<Byte>, mem': seq<Byte>, blocks: seq<Block>, start: U32)
    requires Tiles(blocks, start) && Linked(mem, blocks) && |mem'| == |mem|
    requires forall a | 0 <= a < |mem| && !InPayload(blocks, a) :: mem'[a] == mem[a]
    ensures Linked(mem', blocks)
  {
    forall k | 0 <= k < |blocks| ensures LinkAt(mem', blocks, k) {
      assert LinkAt(mem, blocks, k);
      forall i | blocks[k].addr <= i < blocks[k].addr + HEADER ensures mem'[i] == mem[i] {
        if InPayload(blocks, i) {
          PayloadNotHeader(blocks, start, k, i);
        }
      }
      SameHeader(mem, mem', blocks[k], NextAddr(blocks, k));
    }
  }

  // ----- the two changes the allocator makes -----

  /** Setting one in-use flag. */
  lemma FlagSet(mem: seq<Byte>, blocks: seq<Block>, start: U32, k: nat, flag: bool)
    requires Tiles(blocks, start) && Linked(mem, blocks) && k < |blocks|
    ensures blocks[k].addr + HEADER <= |mem|
    ensures var mem' := mem[blocks[k].addr + 4 := if flag then 1 else 0];
      && Linked(mem', blocks[k := blocks[k].(inUse := flag)])
      && forall a | 0 <= a < |mem| && InPayload(blocks, a) :: mem'[a] == mem[a]
  {
    assert LinkAt(mem, blocks, k);
    var mem' := mem[blocks[k].addr + 4 := if flag then 1 else 0];
    var blocks' := blocks[k := blocks[k].(inUse := flag)];
    forall j | 0 <= j < |blocks'| ensures LinkAt(mem', blocks', j) {
      assert LinkAt(mem, blocks, j) && NextAddr(blocks', j) == NextAddr(blocks, j);
      if j != k {
        HeadersApart(blocks, start, j, k);
        SameHeader(mem, mem', blocks[j], NextAddr(blocks, j));
      }
    }
    forall a | 0 <= a < |mem| && InPayload(blocks, a) ensures mem'[a] == mem[a] {
      PayloadNotHeader(blocks, start, k, a);
    }
  }

  /** The bytes after a block is appended: its own header, and the link from the block before it. */
  function Appended(mem: seq<Byte>, last: U32, tail: U32, bytes: U32): (m: seq<Byte>)
    requires last + HEADER <= tail && tail + HEADER <= |mem|
    ensures |m| == |mem|
    ensures U32At(m, tail) == bytes && m[tail + 4] == 1 && U32At(m, tail + 5) == 0 && U32At(m, last + 5) == tail
    ensures forall i | 0 <= i < |mem| && !(tail <= i < tail + HEADER) && !(last + 5 <= i < last + 9) :: m[i] == mem[i]
  {
    StoreU32(StoreU32(StoreU32(mem[tail + 4 := 1], tail + 5, 0), tail, bytes), last + 5, tail)
  }

  lemma BlockAppended(mem: seq<Byte>, blocks: seq<Block>, start: U32, end: U32, bytes: U32)
    requires Good(blocks, start, end) && Linked(mem, blocks) && end + HEADER <= |mem|
    ensures var last, tail := blocks[|blocks| - 1], End(blocks[|blocks| - 1]);
      && tail < TWO32
      && var mem' := Appended(mem, last.addr, tail, bytes);
         && Linked(mem', blocks + [Block(tail, bytes, true)])
         && forall a | 0 <= a < |mem| && InPayload(blocks, a) :: mem'[a] == mem[a]
  {
    var n := |blocks| - 1;
    var last, tail := blocks[n], End(blocks[n]);
    var mem' := Appended(mem, last.addr, tail, bytes);
    var blocks' := blocks + [Block(tail, bytes, true)];
    forall j | 0 <= j < |blocks'| ensures LinkAt(mem', blocks', j) {
      if j < n {
        assert LinkAt(mem, blocks, j);
        TilesOrdered(blocks, start, j, n);
        SameHeader(mem, mem', blocks[j], NextAddr(blocks, j));
      } else if j == n {
        assert LinkAt(mem, blocks, n);
      }
    }
    forall a | 0 <= a < |mem| && InPayload(blocks, a) ensures mem'[a] == mem[a] {
      PayloadNotHeader(blocks, start, n, a);
      var j: nat :| j < |blocks| && PayloadHolds(blocks[j], a);
      if j < n {
        TilesOrdered(blocks, start, j, n);
      }
    }
  }

  class KernelAllocator {
    const memory: array<Byte>  // the whole 32-bit address space
    const heapStart: U32
    const heapEnd: U32
    ghost var blocks: seq<Block>

    constructor (memory: array<Byte>, heapStart: U32, heapEnd: U32)
      ensures this.memory == memory && this.heapStart == heapStart && this.heapEnd == heapEnd
    {
      this.memory, this.heapStart, this.heapEnd := memory, heapStart, heapEnd;
    }

    ghost predicate Valid()
      reads this, memory
    {
      memory.Length == TWO32 && Good(blocks, heapStart, heapEnd) && Linked(memory[..], blocks)
    }

    /** Payload bytes of these blocks are as they were. */
    twostate predicate PayloadsKept(bs: seq<Block>)
      reads memory
    {
      forall a | 0 <= a < memory.Length && InPayload(bs, a) :: memory[a] == old(memory[a])
    }

    /** Nothing but headers of these blocks has changed. */
    twostate predicate OnlyHeaders(bs: seq<Block>)
      reads memory
    {
      forall a | 0 <= a < memory.Length && memory[a] != old(memory[a]) :: InHeader(bs, a)
    }

    method WriteU32(a: nat, v: U32)
      requires a + 4 <= memory.Length
      modifies memory
      ensures memory[..] == StoreU32(old(memory[..]), a, v)
    {
      var b := Le32(v);
      memory[a] := b[0];
      memory[a + 1] := b[1];
      memory[a + 2] := b[2];
      memory[a + 3] := b[3];
    }

    method Init()
      requires memory.Length == TWO32 && 0 < heapStart && heapStart + HEADER <= heapEnd && heapEnd + HEADER < TWO32
      modifies this, memory
      ensures Valid() && blocks == [Block(heapStart, 0, true)]
    {
      WriteU32(heapStart, 0);
      memory[heapStart + 4] := 1;
      WriteU32(heapStart + 5, 0);
      blocks := [Block(heapStart, 0, true)];
      assert LinkAt(memory[..], blocks, 0);
    }

    /** Marks block `k` in use. */
    method Reuse(currentBlock: nat, ghost k: nat)
      requires Valid() && k < |blocks| && currentBlock == blocks[k].addr
      modifies this`blocks, memory
      ensures blocks == old(blocks)[k := old(blocks)[k].(inUse := true)]
      ensures Linked(memory[..], blocks) && PayloadsKept(old(blocks)) && OnlyHeaders(blocks)
    {
      FlagSet(memory[..], blocks, heapStart, k, true);
      memory[currentBlock + 4] := 1;
      assert memory[..] == old(memory[..])[currentBlock + 4 := 1];
      blocks := blocks[k := blocks[k].(inUse := true)];
      assert HeaderHolds(blocks[k], currentBlock + 4);
    }

    /** Writes a header behind the last block and links it. */
    method Append(last: U32, tail: U32, bytes: U32)
      requires Valid() && last == blocks[|blocks| - 1].addr && tail == End(blocks[|blocks| - 1])
      modifies this`blocks, memory
      ensures blocks == old(blocks) + [Block(tail, bytes, true)]
      ensures Linked(memory[..], blocks) && PayloadsKept(old(blocks)) && OnlyHeaders(blocks)
    {
      BlockAppended(memory[..], blocks, heapStart, heapEnd, bytes);
      ghost var n := |blocks|;
      StoreHeader(last, tail, bytes);
      blocks := blocks + [Block(tail, bytes, true)];
      hide Linked;
      hide InPayload;
      forall a | 0 <= a < memory.Length && memory[a] != old(memory[a]) ensures InHeader(blocks, a) {
        assert memory[a] == memory[..][a] && old(memory[a]) == old(memory[..])[a];
        assert HeaderHolds(blocks[n], a) || HeaderHolds(blocks[n - 1], a);
      }
    }

    /** The four stores that append a block. */
    method StoreHeader(last: U32, tail: nat, bytes: U32)
      requires last + HEADER <= tail && tail + HEADER < memory.Length == TWO32
      modifies memory
      ensures memory[..] == Appended(old(memory[..]), last, tail, bytes)
    {
      memory[tail + 4] := 1;
      assert memory[..] == old(memory[..])[tail + 4 := 1];
      WriteU32(tail + 5, 0);
      WriteU32(tail, bytes);
      WriteU32(last + 5, tail);
    }

    /** What `alloc` does at the last block: a block behind it, unless the heap ends before. */
    method AppendIfRoom(last: U32, bytes: U32) returns (p: nat)
      requires Valid() && last == blocks[|blocks| - 1].addr && FirstFit(blocks, bytes) == |blocks|
      modifies this`blocks, memory
      ensures (blocks, p) == Alloc(old(blocks), heapEnd, bytes)
      ensures Linked(memory[..], blocks) && PayloadsKept(old(blocks)) && OnlyHeaders(blocks)
    {
      AllocAtEnd(blocks, heapEnd, bytes);
      LinkIn(memory[..], blocks, |blocks| - 1);
      hide Linked;
      hide U32At;
      hide Alloc;
      hide FirstFit;
      var next := last + HEADER + U32At(memory[..], last);
      if Low32(next + HEADER + bytes) > heapEnd {
        return 0;
      }
      Append(last, next, bytes);
      return next + HEADER;
    }

    /** The walk of `alloc` along the links: to the first block that fits, or to the last block. */
    method FindBlock(bytes: U32) returns (currentBlock: U32, fits: bool, ghost k: nat)
      requires Valid()
      ensures k < |blocks| && currentBlock == blocks[k].addr
      ensures fits <==> FirstFit(blocks, bytes) < |blocks|
      ensures k == if fits then FirstFit(blocks, bytes) else |blocks| - 1
    {
      hide Linked;
      hide U32At;
      hide FirstFit;
      currentBlock := heapStart;
      k := 0;
      while true
        invariant k < |blocks| && currentBlock == blocks[k].addr
        invariant forall j | 0 <= j < k :: blocks[j].inUse || blocks[j].size < bytes
        decreases |blocks| - k
      {
        LinkIn(memory[..], blocks, k);
        if memory[currentBlock + 4] == 0 && U32At(memory[..], currentBlock) >= bytes {
          FitFound(blocks, bytes, k);
          return currentBlock, true, k;
        }
        if U32At(memory[..], currentBlock + 5) == 0 {
          LastIn(blocks, heapStart, k);
          FitFound(blocks, bytes, |blocks|);
          return currentBlock, false, k;
        }
        NextIn(blocks, heapStart, k);
        currentBlock := U32At(memory[..], currentBlock + 5);
        k := k + 1;
      }
    }

    /** `alloc`, refining the list function for every request. Payloads keep their bytes, and the heap
        stays valid exactly on safe requests. */
    method AllocBlock(bytes: U32) returns (p: nat)
      requires Valid()
      modifies this`blocks, memory
      ensures (blocks, p) == Alloc(old(blocks), heapEnd, bytes)
      ensures Linked(memory[..], blocks) && PayloadsKept(old(blocks)) && OnlyHeaders(blocks)
      ensures Valid() <==> Safe(old(blocks), heapEnd, bytes)
    {
      AllocKeepsGood(blocks, heapStart, heapEnd, bytes);
      hide Linked;
      hide Alloc;
      hide FirstFit;
      hide Safe;
      var currentBlock, fits; ghost var k;
      currentBlock, fits, k := FindBlock(bytes);
      if fits {
        AllocReuses(blocks, heapEnd, bytes, k);
        Reuse(currentBlock, k);
        p := currentBlock + HEADER;
      } else {
        p := AppendIfRoom(currentBlock, bytes);
      }
    }

    /** `free` of the payload of block `k`. */
    method FreeBlock(p: nat, ghost k: nat)
      requires Valid() && IsPayload(blocks, p, k)
      modifies this`blocks, memory
      ensures Valid() && blocks == Free(old(blocks), k) && PayloadsKept(old(blocks)) && OnlyHeaders(blocks)
    {
      FlagSet(memory[..], blocks, heapStart, k, false);
      FreeKeepsGood(blocks, heapStart, heapEnd, k);
      memory[p - HEADER + 4] := 0;
      assert memory[..] == old(memory[..])[p - HEADER + 4 := 0];
      blocks := Free(blocks, k);
      assert HeaderHolds(blocks[k], p - HEADER + 4);
    }

    /** A caller's store into a payload it was given. */
    method WritePayload(a: nat, v: Byte)
      requires Valid() && a < memory.Length && InPayload(blocks, a)
      modifies memory
      ensures Valid() && memory[..] == old(memory[..])[a := v]
    {
      PayloadWritesKeepList(memory[..], memory[..][a := v], blocks, heapStart);
      memory[a] := v;
      assert memory[..] == old(memory[..])[a := v];
    }
  }

  lemma LinkIn(mem: seq<Byte>, blocks: seq<Block>, k: nat)
    requires Linked(mem, blocks) && k < |blocks|
    ensures HeaderAt(mem, blocks[k], NextAddr(blocks, k))
  {
    assert LinkAt(mem, blocks, k);
  }

  lemma FitFound(blocks: seq<Block>, bytes: U32, k: nat)
    requires k <= |blocks| && forall j | 0 <= j < k :: blocks[j].inUse || blocks[j].size < bytes
    requires k < |blocks| ==> !blocks[k].inUse && blocks[k].size >= bytes
    ensures FirstFit(blocks, bytes) == k
  {
  }

  lemma AllocReuses(blocks: seq<Block>, end: U32, bytes: U32, k: nat)
    requires blocks != [] && End(blocks[|blocks| - 1]) <= end && end + HEADER < TWO32
    requires k < |blocks| && k == FirstFit(blocks, bytes)
    ensures Alloc(blocks, end, bytes) == (blocks[k := blocks[k].(inUse := true)], Payload(blocks[k]))
  {
    hide FirstFit;
  }

  lemma AllocAtEnd(blocks: seq<Block>, end: U32, bytes: U32)
    requires blocks != [] && End(blocks[|blocks| - 1]) <= end && end + HEADER < TWO32
    requires FirstFit(blocks, bytes) == |blocks|
    ensures var tail := End(blocks[|blocks| - 1]);
      Alloc(blocks, end, bytes)
      == if EndRefused(tail, bytes, end) then (blocks, 0) else (blocks + [Block(tail, bytes, true)], tail + HEADER)
  {
    hide FirstFit;
  }

  /** Only the last block has no next block. */
  lemma LastIn(blocks: seq<Block>, start: U32, k: nat)
    requires Tiles(blocks, start) && 0 < start && k < |blocks| && NextAddr(blocks, k) == 0
    ensures k == |blocks| - 1
  {
    if k + 1 < |blocks| {
      TilesOrdered(blocks, start, 0, k + 1);
    }
  }

  lemma NextIn(blocks: seq<Block>, start: U32, k: nat)
    requires Tiles(blocks, start) && k < |blocks| && NextAddr(blocks, k) != 0
    ensures k + 1 < |blocks| && NextAddr(blocks, k) == blocks[k + 1].addr
  {
  }
}
