/** The bitmap of physical frames. */
module Frames {
  import opened Bytes

  const FRAME_SIZE: nat := 4096

  // ----- single bits of a byte -----

  /** `1 << j` */
  function Mask(j: nat): bv8
    requires j < 8
  {
    if j == 0 then 1 else if j == 1 then 2 else if j == 2 then 4 else if j == 3 then 8
    else if j == 4 then 16 else if j == 5 then 32 else if j == 6 then 64 else 128
  }

  function Bit(b: bv8, j: nat): bool
    requires j < 8
  {
    b & Mask(j) != 0
  }

  lemma SetBit(b: bv8, j: nat, k: nat)
    requires j < 8 && k < 8
    ensures Bit(b | Mask(j), k) == (k == j || Bit(b, k))
    ensures Bit(b & !Mask(j), k) == (k != j && Bit(b, k))
  {
  }

  // ----- the allocator as a set -----

  /** The first frame of memory that is not taken. */
  ghost function LowestFree(used: set<nat>, total: nat): (r: Option<nat>)
    ensures r.None? <==> forall i: nat | i < total :: i in used
    ensures r.Some? ==> r.value < total && r.value !in used && forall i: nat | i < r.value :: i in used
  {
    LowestFreeFrom(used, total, 0)
  }

  ghost function LowestFreeFrom(used: set<nat>, total: nat, from: nat): (r: Option<nat>)
    requires from <= total && forall i: nat | i < from :: i in used
    ensures r.None? <==> forall i: nat | i < total :: i in used
    ensures r.Some? ==> r.value < total && r.value !in used && forall i: nat | i < r.value :: i in used
    decreases total - from
  {
    if from == total then None
    else if from !in used then Some(from)
    else LowestFreeFrom(used, total, from + 1)
  }

  /** The frames of memory that can still be handed out. */
  function FreeFrames(used: set<nat>, total: nat): set<nat> {
    set f: nat | f < total && f !in used
  }

  lemma TakeFree(used: set<nat>, total: nat, f: nat)
    requires f < total && f !in used
    ensures |FreeFrames(used, total)| == |FreeFrames(used + {f}, total)| + 1
  {
    assert FreeFrames(used, total) == FreeFrames(used + {f}, total) + {f};
  }

  lemma NoneFree(used: set<nat>, total: nat)
    ensures LowestFree(used, total).None? <==> |FreeFrames(used, total)| == 0
  {
    if f: nat :| f < total && f !in used {
      assert f in FreeFrames(used, total);
    }
  }

  datatype FrameOp = Alloc | Free(frame: nat)

  ghost function Apply(used: set<nat>, total: nat, op: FrameOp): set<nat> {
    match op
    case Alloc => (match LowestFree(used, total) case None => used case Some(f) => used + {f})
    case Free(f) => used - {f}
  }

  ghost function After(used: set<nat>, total: nat, ops: seq<FrameOp>): set<nat> {
    if ops == [] then used else Apply(After(used, total, ops[..|ops| - 1]), total, ops[|ops| - 1])
  }

  /** The operation at `k` of a run hands out frame `f`. */
  ghost predicate HandsOut(used: set<nat>, total: nat, ops: seq<FrameOp>, k: nat, f: nat)
    requires k < |ops|
  {
    ops[k].Alloc? && LowestFree(After(used, total, ops[..k]), total) == Some(f)
  }

  lemma {:induction false} TakenUntilFreed(used: set<nat>, total: nat, ops: seq<FrameOp>, i: nat, j: nat, f: nat)
    requires i < j <= |ops| && HandsOut(used, total, ops, i, f)
    requires forall k | i < k < j :: ops[k] != Free(f)
    ensures f in After(used, total, ops[..j])
    decreases j
  {
    assert ops[..j][..j - 1] == ops[..j - 1];
    if i < j - 1 {
      TakenUntilFreed(used, total, ops, i, j - 1, f);
    }
  }

  /** No frame is handed out twice unless it was freed in between. */
  lemma NoFrameTwice(used: set<nat>, total: nat, ops: seq<FrameOp>, i: nat, j: nat, f: nat)
    requires i < j < |ops| && HandsOut(used, total, ops, i, f) && HandsOut(used, total, ops, j, f)
    ensures exists k :: i < k < j && ops[k] == Free(f)
  {
    if forall k | i < k < j :: ops[k] != Free(f) {
      TakenUntilFreed(used, total, ops, i, j, f);
      assert false;
    }
  }

  // ----- the allocator in memory -----

  class PhysicalFrameAllocator {
    var bitmap: array<bv8>
    var totalFrames: nat

    ghost predicate Valid()
      reads this
    {
      totalFrames <= 8 * bitmap.Length && totalFrames <= 0x10_0000
    }

    predicate InUse(i: nat)
      requires i < 8 * bitmap.Length
      reads this, bitmap
    {
      Bit(bitmap[i / 8], i % 8)
    }

    /** The allocator as a set: the frames of memory that are taken. */
    ghost function Used(): (s: set<nat>)
      requires Valid()
      reads this, bitmap
      ensures forall i: nat :: i in s <==> i < totalFrames && InUse(i)
    {
      set i: nat | i < totalFrames && InUse(i)
    }

    constructor (memSizeBytes: U32, bitmapStorage: array<bv8>)
      requires 8 * bitmapStorage.Length >= memSizeBytes / FRAME_SIZE
      modifies bitmapStorage
      ensures Valid() && bitmap == bitmapStorage && totalFrames == memSizeBytes / FRAME_SIZE && Used() == {}
    {
      totalFrames := memSizeBytes / FRAME_SIZE;
      bitmap := bitmapStorage;
      new;
      for i := 0 to (totalFrames + 7) / 8
        invariant bitmap == bitmapStorage && totalFrames == memSizeBytes / FRAME_SIZE
        invariant forall k | 0 <= k < i :: bitmap[k] == 0
      {
        bitmap[i] := 0;
      }
    }

    method MarkUsed(i: nat)
      requires Valid() && i < 8 * bitmap.Length
      modifies bitmap
      ensures forall k: nat | k < 8 * bitmap.Length :: InUse(k) == (k == i || old(InUse(k)))
      ensures Used() == old(Used()) + if i < totalFrames then {i} else {}
    {
      bitmap[i / 8] := bitmap[i / 8] | Mask(i % 8);
      forall k: nat | k < 8 * bitmap.Length ensures InUse(k) == (k == i || old(InUse(k))) {
        SetBit(old(bitmap[i / 8]), i % 8, k % 8);
      }
    }

    method MarkFree(i: nat)
      requires Valid() && i < 8 * bitmap.Length
      modifies bitmap
      ensures forall k: nat | k < 8 * bitmap.Length :: InUse(k) == (k != i && old(InUse(k)))
      ensures Used() == old(Used()) - {i}
    {
      bitmap[i / 8] := bitmap[i / 8] & !Mask(i % 8);
      forall k: nat | k < 8 * bitmap.Length ensures InUse(k) == (k != i && old(InUse(k))) {
        SetBit(old(bitmap[i / 8]), i % 8, k % 8);
      }
    }

    /** The lowest free frame, now taken; address 0 when there is none. While frame 0 is taken, address
        0 means nothing else. */
    method AllocFrame() returns (addr: U32)
      requires Valid()
      modifies bitmap
      ensures var w := LowestFree(old(Used()), totalFrames);
        && (w.Some? ==> addr == w.value * FRAME_SIZE)
        && (w.None? ==> addr == 0)
        && (0 in old(Used()) ==> (addr == 0 <==> w.None?))
      ensures Used() == Apply(old(Used()), totalFrames, Alloc)
    {
      for i := 0 to totalFrames
        invariant forall k: nat | k < i :: k in Used()
        invariant Used() == old(Used())
      {
        if !InUse(i) {
          assert i !in old(Used());
          MarkUsed(i);
          return i * FRAME_SIZE;
        }
      }
      return 0;
    }

    method FreeFrame(addr: U32)
      requires Valid() && addr / FRAME_SIZE < 8 * bitmap.Length
      modifies bitmap
      ensures Used() == Apply(old(Used()), totalFrames, Free(addr / FRAME_SIZE))
    {
      MarkFree(addr / FRAME_SIZE);
    }
  }
}
