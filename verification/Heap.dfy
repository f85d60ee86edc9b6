/** The kernel heap: a first-fit allocator whose block list lives in the memory it hands out. A block
    is a packed 9-byte header (size, in-use flag, address of the next block) followed by its payload. */
module Heap {
  import opened Bytes

  const HEADER: nat := 9

  datatype Block = Block(addr: U32, size: U32, inUse: bool)

  // ----- block lists as values -----

  function End(b: Block): nat { b.addr + HEADER + b.size }

  function Payload(b: Block): nat { b.addr + HEADER }

  /** Each block starts where the one before it ends. */
  ghost predicate Tiles(blocks: seq<Block>, start: U32) {
    && blocks != [] && blocks[0] == Block(start, 0, true)
    && forall k | 0 < k < |blocks| :: blocks[k].addr == End(blocks[k - 1])
  }

  /** Tiling blocks that end inside the heap. */
  ghost predicate Good(blocks: seq<Block>, start: U32, end: U32) {
    && 0 < start && end + HEADER < TWO32
    && Tiles(blocks, start) && End(blocks[|blocks| - 1]) <= end
  }

  lemma {:induction false} TilesOrdered(blocks: seq<Block>, start: U32, j: nat, k: nat)
    requires Tiles(blocks, start) && j < k < |blocks|
    ensures End(blocks[j]) <= blocks[k].addr
    decreases k
  {
    if j < k - 1 {
      TilesOrdered(blocks, start, j, k - 1);
    }
  }

  function Sizes(blocks: seq<Block>): nat {
    if blocks == [] then 0 else Sizes(blocks[..|blocks| - 1]) + blocks[|blocks| - 1].size
  }

  /** Nothing is lost between blocks: the heap up to its last block is nine bytes for each block and the
      payloads. */
  lemma {:induction false} NothingLost(blocks: seq<Block>, start: U32)
    requires Tiles(blocks, start)
    ensures End(blocks[|blocks| - 1]) == start + 9 * |blocks| + Sizes(blocks)
    decreases |blocks|
  {
    var front := blocks[..|blocks| - 1];
    if front == [] {
      assert Sizes(front) == 0;
    } else {
      assert Tiles(front, start);
      NothingLost(front, start);
    }
  }

  /** The first block in address order that is free and large enough. */
  function FirstFit(blocks: seq<Block>, bytes: U32): (k: nat)
    ensures k <= |blocks| && (k < |blocks| ==> !blocks[k].inUse && blocks[k].size >= bytes)
    ensures forall j | 0 <= j < k :: blocks[j].inUse || blocks[j].size < bytes
  {
    if blocks == [] then 0
    else if !blocks[0].inUse && blocks[0].size >= bytes then 0
    else
      var k := FirstFit(blocks[1..], bytes);
      assert forall j | 1 <= j < k + 1 :: blocks[j] == blocks[1..][j - 1];
      k + 1
  }

  /** The check before a block is appended: an end address beyond the heap is refused, but the address
      is computed in 32 bits. */
  predicate EndRefused(tail: nat, bytes: U32, end: U32) {
    Low32(tail + HEADER + bytes) > end
  }

  /** `alloc`: the list afterwards and the payload's address, or 0. */
  function Alloc(blocks: seq<Block>, end: U32, bytes: U32): (seq<Block>, nat)
    requires blocks != [] && End(blocks[|blocks| - 1]) <= end && end + HEADER < TWO32
  {
    var k := FirstFit(blocks, bytes);
    if k < |blocks| then (blocks[k := blocks[k].(inUse := true)], Payload(blocks[k]))
    else
      var tail := End(blocks[|blocks| - 1]);
      if EndRefused(tail, bytes, end) then (blocks, 0)
      else (blocks + [Block(tail, bytes, true)], tail + HEADER)
  }

  /** The appended block's end fits in 32 bits. A caller can check it against the end of the heap. */
  predicate NoWrap(blocks: seq<Block>, bytes: U32)
    requires blocks != []
  {
    End(blocks[|blocks| - 1]) + HEADER + bytes < TWO32
  }

  /** What a caller can check before a request: it is met by a free block, or the guard refuses it, or
      the new block's end does not wrap around. */
  predicate Safe(blocks: seq<Block>, end: U32, bytes: U32)
    requires blocks != []
  {
    FirstFit(blocks, bytes) < |blocks| || EndRefused(End(blocks[|blocks| - 1]), bytes, end) || NoWrap(blocks, bytes)
  }

  /** `alloc` keeps a good list good exactly on the safe requests. */
  lemma AllocKeepsGood(blocks: seq<Block>, start: U32, end: U32, bytes: U32)
    requires Good(blocks, start, end)
    ensures var r := Alloc(blocks, end, bytes);
      Tiles(r.0, start) && (Good(r.0, start, end) <==> Safe(blocks, end, bytes))
  {
  }

  /** For every request: the block handed out is the first fitting free one, else a new one at the tail,
      and null comes exactly when nothing fits and the guard refuses, which without wrap-around means
      that the heap ends too early. The block ends inside the heap exactly on safe requests. */
  lemma AllocComplete(blocks: seq<Block>, start: U32, end: U32, bytes: U32)
    requires Good(blocks, start, end)
    ensures var (after, p) := Alloc(blocks, end, bytes);
      var k, tail := FirstFit(blocks, bytes), End(blocks[|blocks| - 1]);
      && (p == 0 <==> k == |blocks| && EndRefused(tail, bytes, end))
      && (NoWrap(blocks, bytes) ==> (EndRefused(tail, bytes, end) <==> tail + HEADER + bytes > end))
      && (p == 0 ==> after == blocks)
      && (p != 0 ==>
            && k < |after| == (if k < |blocks| then |blocks| else |blocks| + 1)
            && Payload(after[k]) == p && after[k].inUse && after[k].size >= bytes
            && (End(after[k]) <= end <==> Safe(blocks, end, bytes)))
      && forall j | 0 <= j < |blocks| && j != k :: after[j] == blocks[j]
  {
    if FirstFit(blocks, bytes) < |blocks| - 1 {
      TilesOrdered(blocks, start, FirstFit(blocks, bytes), |blocks| - 1);
    }
  }

  /** The smallest wrapping request: a heap of 64 bytes accepts 4 GiB less one byte. */
  lemma WrappedRequestAccepted()
    ensures var blocks := [Block(0x10_0000, 0, true)];
      && Good(blocks, 0x10_0000, 0x10_0040)
      && Alloc(blocks, 0x10_0040, 0xFFFF_FFFF).1 != 0
      && !Good(Alloc(blocks, 0x10_0040, 0xFFFF_FFFF).0, 0x10_0000, 0x10_0040)
  {
    var blocks := [Block(0x10_0000, 0, true)];
    assert FirstFit(blocks, 0xFFFF_FFFF) == 1;
    assert !EndRefused(End(blocks[0]), 0xFFFF_FFFF, 0x10_0040);
  }

  ghost predicate IsPayload(blocks: seq<Block>, p: nat, k: nat) {
    0 < k < |blocks| && Payload(blocks[k]) == p
  }

  /** `free` of the payload of block `k`. */
  function Free(blocks: seq<Block>, k: nat): seq<Block>
    requires k < |blocks|
  {
    blocks[k := blocks[k].(inUse := false)]
  }

  /** After a block is freed, every request up to its size succeeds. */
  lemma FreeThenAlloc(blocks: seq<Block>, start: U32, end: U32, k: nat, bytes: U32)
    requires Good(blocks, start, end) && 0 < k < |blocks| && bytes <= blocks[k].size
    ensures var freed := Free(blocks, k);
      && Good(freed, start, end) && FirstFit(freed, bytes) <= k && Alloc(freed, end, bytes).1 != 0
  {
    var freed := Free(blocks, k);
    FreeKeepsGood(blocks, start, end, k);
    assert freed[k].size == blocks[k].size && !freed[k].inUse;
    hide Good;
  }

  lemma FreeKeepsGood(blocks: seq<Block>, start: U32, end: U32, k: nat)
    requires Good(blocks, start, end) && 0 < k < |blocks|
    ensures Good(Free(blocks, k), start, end)
  {
  }

  // ----- whole runs: callers allocate, free what they own, and write only what they own -----

  datatype Op = AllocOp(bytes: U32) | FreeOp(p: nat)

  /** The list, and for every payload handed out and not freed the size that was asked for. */
  datatype HeapState = HeapState(blocks: seq<Block>, live: map<nat, U32>)

  /** Live payloads are exactly the payloads of the blocks in use, and large enough. */
  ghost predicate Owned(h: HeapState) {
    && (forall k | 0 < k < |h.blocks| :: h.blocks[k].inUse <==> Payload(h.blocks[k]) in h.live)
    && (forall k | 0 < k < |h.blocks| && h.blocks[k].inUse :: h.live[Payload(h.blocks[k])] <= h.blocks[k].size)
    && forall p | p in h.live :: exists k :: IsPayload(h.blocks, p, k)
  }

  ghost predicate AllowedOp(h: HeapState, op: Op) {
    op.FreeOp? ==> op.p in h.live && exists k :: IsPayload(h.blocks, op.p, k)
  }

  ghost function Step(h: HeapState, end: U32, op: Op): HeapState
    requires h.blocks != [] && End(h.blocks[|h.blocks| - 1]) <= end && end + HEADER < TWO32 && AllowedOp(h, op)
  {
    match op
    case AllocOp(bytes) =>
      var (blocks, p) := Alloc(h.blocks, end, bytes);
      if p == 0 then h else HeapState(blocks, h.live[p := bytes])
    case FreeOp(p) =>
      var k :| IsPayload(h.blocks, p, k);
      HeapState(Free(h.blocks, k), h.live - {p})
  }

  predicate SafeOp(h: HeapState, end: U32, op: Op) {
    op.AllocOp? ==> h.blocks != [] && Safe(h.blocks, end, op.bytes)
  }

  lemma PayloadsDiffer(blocks: seq<Block>, start: U32, j: nat, k: nat)
    requires Tiles(blocks, start) && j < |blocks| && k < |blocks| && Payload(blocks[j]) == Payload(blocks[k])
    ensures j == k
  {
    if j < k {
      TilesOrdered(blocks, start, j, k);
    } else if k < j {
      TilesOrdered(blocks, start, k, j);
    }
  }

  /** Every step keeps the tiling and what live payloads mean, and keeps the blocks inside the heap
      exactly when it is safe. */
  lemma StepKeeps(h: HeapState, start: U32, end: U32, op: Op)
    requires Good(h.blocks, start, end) && Owned(h) && AllowedOp(h, op)
    ensures var h' := Step(h, end, op);
      Tiles(h'.blocks, start) && Owned(h') && (Good(h'.blocks, start, end) <==> SafeOp(h, end, op))
  {
    match op
    case AllocOp(bytes) =>
      AllocKeepsGood(h.blocks, start, end, bytes);
      AllocOwned(h, start, end, bytes);
      NullKeeps(h.blocks, end, bytes);
    case FreeOp(p) =>
      var k :| IsPayload(h.blocks, p, k) && Step(h, end, op) == HeapState(Free(h.blocks, k), h.live - {p});
      FreeKeepsGood(h.blocks, start, end, k);
      FreeOwned(h, start, end, p, k);
  }

  lemma NullKeeps(blocks: seq<Block>, end: U32, bytes: U32)
    requires blocks != [] && End(blocks[|blocks| - 1]) <= end && end + HEADER < TWO32
    ensures Alloc(blocks, end, bytes).1 == 0 ==> Alloc(blocks, end, bytes).0 == blocks
  {
  }

  /** A successful allocation keeps every block but the one it hands out. */
  lemma AllocElsewhere(blocks: seq<Block>, start: U32, end: U32, bytes: U32)
    requires Good(blocks, start, end) && Alloc(blocks, end, bytes).1 != 0
    ensures var (after, p) := Alloc(blocks, end, bytes); var f := FirstFit(blocks, bytes);
      && |blocks| <= |after| <= |blocks| + 1 && 0 < f < |after| && Payload(after[f]) == p && Tiles(after, start)
      && after[f].inUse && bytes <= after[f].size && (f < |blocks| ==> Payload(blocks[f]) == p)
    ensures var (after, p) := Alloc(blocks, end, bytes); var f := FirstFit(blocks, bytes);
      forall k | 0 <= k < |blocks| && k != f :: after[k] == blocks[k]
  {
    AllocKeepsGood(blocks, start, end, bytes);
    hide Tiles;
  }

  lemma AllocOwned(h: HeapState, start: U32, end: U32, bytes: U32)
    requires Good(h.blocks, start, end) && Owned(h)
    ensures Owned(Step(h, end, AllocOp(bytes)))
  {
    var (blocks, p) := Alloc(h.blocks, end, bytes);
    if p != 0 {
      var f := FirstFit(h.blocks, bytes);
      AllocElsewhere(h.blocks, start, end, bytes);
      hide Alloc;
      hide FirstFit;
      hide Payload;
      hide Tiles;
      hide Good;
      var live := h.live[p := bytes];
      forall k | 0 < k < |blocks|
        ensures blocks[k].inUse <==> Payload(blocks[k]) in live
        ensures blocks[k].inUse ==> live[Payload(blocks[k])] <= blocks[k].size
      {
        if k != f {
          PayloadIsNot(blocks, start, k, f);
          assert blocks[k] == h.blocks[k];
        }
      }
      hide Owned;
      forall q | q in live ensures exists k :: IsPayload(blocks, q, k) {
        StillPayload(h, blocks, p, f, q);
      }
      OwnedIs(HeapState(blocks, live));
    }
  }

  lemma OwnedIs(h: HeapState)
    requires forall k | 0 < k < |h.blocks| :: h.blocks[k].inUse <==> Payload(h.blocks[k]) in h.live
    requires forall k | 0 < k < |h.blocks| && h.blocks[k].inUse :: h.live[Payload(h.blocks[k])] <= h.blocks[k].size
    requires forall p | p in h.live :: exists k :: IsPayload(h.blocks, p, k)
    ensures Owned(h)
  {
  }

  lemma StillPayload(h: HeapState, blocks: seq<Block>, p: nat, f: nat, q: nat)
    requires Owned(h) && (q in h.live || q == p)
    requires |h.blocks| <= |blocks| && 0 < f < |blocks| && Payload(blocks[f]) == p && blocks[f].inUse
    requires f < |h.blocks| ==> Payload(h.blocks[f]) == p
    requires forall k | 0 <= k < |h.blocks| && k != f :: blocks[k] == h.blocks[k]
    ensures exists k :: IsPayload(blocks, q, k)
  {
    if q == p {
      assert IsPayload(blocks, p, f);
    } else {
      var k :| IsPayload(h.blocks, q, k);
      assert IsPayload(blocks, q, k);
    }
  }

  lemma PayloadIsNot(blocks: seq<Block>, start: U32, j: nat, k: nat)
    requires Tiles(blocks, start) && j < |blocks| && k < |blocks| && j != k
    ensures Payload(blocks[j]) != Payload(blocks[k])
  {
    if Payload(blocks[j]) == Payload(blocks[k]) {
      PayloadsDiffer(blocks, start, j, k);
    }
  }

  lemma FreeOwned(h: HeapState, start: U32, end: U32, p: nat, f: nat)
    requires Good(h.blocks, start, end) && Owned(h) && p in h.live && IsPayload(h.blocks, p, f)
    ensures Owned(HeapState(Free(h.blocks, f), h.live - {p}))
  {
    var blocks := Free(h.blocks, f);
    var h' := HeapState(blocks, h.live - {p});
    forall k | 0 < k < |blocks|
      ensures blocks[k].inUse <==> Payload(blocks[k]) in h'.live
      ensures blocks[k].inUse ==> h'.live[Payload(blocks[k])] <= blocks[k].size
    {
      if k != f {
        PayloadIsNot(h.blocks, start, k, f);
        assert blocks[k] == h.blocks[k];
      }
    }
    forall q | q in h'.live ensures exists k :: IsPayload(blocks, q, k) {
      var k :| IsPayload(h.blocks, q, k);
      assert IsPayload(blocks, q, k);
    }
  }

  ghost predicate IsRun(hs: seq<HeapState>, ops: seq<Op>, start: U32, end: U32) {
    && |hs| == |ops| + 1 && 0 < start && start + HEADER <= end && end + HEADER < TWO32
    && hs[0] == HeapState([Block(start, 0, true)], map[])
    && forall k | 0 <= k < |ops| :: StepTo(hs[k], end, ops[k], hs[k + 1])
  }

  ghost predicate StepTo(h: HeapState, end: U32, op: Op, h': HeapState) {
    && h.blocks != [] && End(h.blocks[|h.blocks| - 1]) <= end && end + HEADER < TWO32 && AllowedOp(h, op)
    && h' == Step(h, end, op)
  }

  /** In every state a run from `init` reaches the blocks tile a range from the heap's start, and the live
      payloads are those of the blocks in use. The range lies inside the heap exactly when every call
      was safe. A run is followed up to its first unsafe call. */
  lemma {:induction false} RunKeeps(hs: seq<HeapState>, ops: seq<Op>, start: U32, end: U32, n: nat)
    requires IsRun(hs, ops, start, end) && n <= |ops|
    ensures Tiles(hs[n].blocks, start) && Owned(hs[n])
    ensures Good(hs[n].blocks, start, end) <==> forall k | 0 <= k < n :: SafeOp(hs[k], end, ops[k])
    decreases n
  {
    if n > 0 {
      RunKeeps(hs, ops, start, end, n - 1);
      assert StepTo(hs[n - 1], end, ops[n - 1], hs[n]);
      StepKeeps(hs[n - 1], start, end, ops[n - 1]);
    }
  }

  /** Live payloads of a reachable state do not overlap. */
  lemma LivePayloadsDisjoint(hs: seq<HeapState>, ops: seq<Op>, start: U32, end: U32, n: nat, p: nat, q: nat)
    requires IsRun(hs, ops, start, end) && n <= |ops| && p in hs[n].live && q in hs[n].live
    ensures start < p && (p < q ==> p + hs[n].live[p] <= q)
  {
    var h := hs[n];
    RunKeeps(hs, ops, start, end, n);
    var j: nat :| IsPayload(h.blocks, p, j);
    var k: nat :| IsPayload(h.blocks, q, k);
    TilesOrdered(h.blocks, start, 0, j);
    if j < k {
      TilesOrdered(h.blocks, start, j, k);
    } else if k < j {
      TilesOrdered(h.blocks, start, k, j);
    }
  }

  lemma LiveInside(h: HeapState, start: U32, end: U32, p: nat)
    requires Good(h.blocks, start, end) && Owned(h) && p in h.live
    ensures p + h.live[p] <= end
  {
    var j: nat :| IsPayload(h.blocks, p, j);
    if j < |h.blocks| - 1 {
      TilesOrdered(h.blocks, start, j, |h.blocks| - 1);
    }
  }

  lemma UnsafeOutside(h: HeapState, start: U32, end: U32, op: Op) returns (p: nat)
    requires Good(h.blocks, start, end) && Owned(h) && AllowedOp(h, op) && !SafeOp(h, end, op)
    ensures var h' := Step(h, end, op); p in h'.live && p + h'.live[p] > end
  {
    p := End(h.blocks[|h.blocks| - 1]) + HEADER;
  }

  /** They lie inside the heap, every one of them, exactly when every call was safe. */
  lemma LiveInsideExactly(hs: seq<HeapState>, ops: seq<Op>, start: U32, end: U32, n: nat)
    requires IsRun(hs, ops, start, end) && n <= |ops|
    ensures (forall p | p in hs[n].live :: p + hs[n].live[p] <= end) <==> forall k | 0 <= k < n :: SafeOp(hs[k], end, ops[k])
  {
    RunKeeps(hs, ops, start, end, n);
    if Good(hs[n].blocks, start, end) {
      forall p | p in hs[n].live ensures p + hs[n].live[p] <= end {
        LiveInside(hs[n], start, end, p);
      }
    } else {
      LastWasUnsafe(hs, ops, start, end, n);
      assert StepTo(hs[n - 1], end, ops[n - 1], hs[n]);
      var p := UnsafeOutside(hs[n - 1], start, end, ops[n - 1]);
      assert p in hs[n].live;
    }
  }

  lemma LastWasUnsafe(hs: seq<HeapState>, ops: seq<Op>, start: U32, end: U32, n: nat)
    requires IsRun(hs, ops, start, end) && n <= |ops| && !Good(hs[n].blocks, start, end)
    ensures n > 0 && Good(hs[n - 1].blocks, start, end) && Owned(hs[n - 1])
    ensures AllowedOp(hs[n - 1], ops[n - 1]) && !SafeOp(hs[n - 1], end, ops[n - 1])
  {
    if n > 0 {
      RunKeeps(hs, ops, start, end, n - 1);
      assert StepTo(hs[n - 1], end, ops[n - 1], hs[n]);
      StepKeeps(hs[n - 1], start, end, ops[n - 1]);
    }
  }
}
