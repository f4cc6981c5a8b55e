/** The physical frame allocator: one bit per 4 KiB frame (src/mem/pmm.c, src/Include/pmm.h). */
module Frames {

  const BLOCK_SIZE := 4096
  const BPP := 8
  const NO_FRAME := 0xFFFF_FFFF
  const FRAME_LIMIT := 0x10_0000  // frames of a 32-bit physical address space

  predicate Bit(b: bv8, k: bv8)
    requires k < 8
  {
    (b >> k) & 1 != 0
  }

  function WithBit(b: bv8, j: bv8): (r: bv8)
    requires j < 8
    ensures forall k: bv8 :: k < 8 ==> (Bit(r, k) <==> j == k || Bit(b, k))
  {
    b | (1 << j)
  }

  function WithoutBit(b: bv8, j: bv8): (r: bv8)
    requires j < 8
    ensures forall k: bv8 :: k < 8 ==> (Bit(r, k) <==> j != k && Bit(b, k))
  {
    b & !(1 << j)
  }

  function Index(i: nat): (k: bv8)
    ensures k < 8
  {
    (i % BPP) as bv8
  }

  lemma IndexInjective(i: nat, j: nat)
    requires i / BPP == j / BPP && i != j
    ensures Index(i) != Index(j)
  {
    assert i % BPP != j % BPP;
  }

  class Pmm {
    const bitmap: array<bv8>
    const totalBlocks: nat

    ghost predicate Valid() {
      totalBlocks < FRAME_LIMIT && bitmap.Length == (totalBlocks + 7) / 8
    }

    predicate IsSet(i: nat)
      requires i < BPP * bitmap.Length
      reads bitmap
    {
      Bit(bitmap[i / BPP], Index(i))
    }

    /** The frames whose bit is set. */
    ghost function Taken(): set<nat>
      reads bitmap
    {
      set i: nat | i < BPP * bitmap.Length && IsSet(i)
    }

    ghost function Free(): set<nat>
      reads bitmap
    {
      set i: nat | i < totalBlocks && i !in Taken()
    }

    constructor (memSize: nat)
      requires memSize < 0x1_0000_0000
      ensures Valid() && fresh(bitmap) && totalBlocks == memSize / 4096
      ensures Taken() == {}
    {
      var blocks := memSize / BLOCK_SIZE;
      var bytes := blocks / BPP;
      if bytes * BPP < blocks {
        bytes := bytes + 1;
      }
      totalBlocks := blocks;
      bitmap := new bv8[bytes](_ => 0);
    }

    method SetBit(i: nat)
      requires i < BPP * bitmap.Length
      modifies bitmap
      ensures Taken() == old(Taken()) + {i}
    {
      bitmap[i / BPP] := WithBit(bitmap[i / BPP], Index(i));
      forall k: nat | k < BPP * bitmap.Length
        ensures IsSet(k) <==> k == i || old(IsSet(k))
      {
        if k != i && k / BPP == i / BPP {
          IndexInjective(i, k);
        }
      }
    }

    method ClearBit(i: nat)
      requires i < BPP * bitmap.Length
      modifies bitmap
      ensures Taken() == old(Taken()) - {i}
    {
      bitmap[i / BPP] := WithoutBit(bitmap[i / BPP], Index(i));
      forall k: nat | k < BPP * bitmap.Length
        ensures IsSet(k) <==> k != i && old(IsSet(k))
      {
        if k != i && k / BPP == i / BPP {
          IndexInjective(i, k);
        }
      }
    }

    method FirstFreeBlock() returns (i: nat)
      requires Valid()
      ensures i in Free() || (i == NO_FRAME && Free() == {})
      ensures forall k :: k in Free() ==> i <= k
    {
      i := 0;
      while i < totalBlocks
        invariant i <= totalBlocks
        invariant forall k: nat :: k < i ==> IsSet(k)
      {
        if !IsSet(i) {
          return;
        }
        i := i + 1;
      }
      i := NO_FRAME;
    }

    /** Takes the lowest free frame. With none left the source sets a bit far outside the bitmap. */
    method AllocBlock() returns (frame: nat)
      requires Valid() && Free() != {}
      modifies bitmap
      ensures frame in old(Free()) && forall k :: k in old(Free()) ==> frame <= k
      ensures Taken() == old(Taken()) + {frame} && Free() == old(Free()) - {frame}
    {
      frame := FirstFreeBlock();
      SetBit(frame);
    }

    method FreeBlock(frame: nat)
      requires Valid() && frame < BPP * bitmap.Length
      modifies bitmap
      ensures Taken() == old(Taken()) - {frame}
    {
      ClearBit(frame);
    }
  }
}
