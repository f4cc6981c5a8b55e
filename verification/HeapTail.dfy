/** The one call after which the heap is no longer what its code takes it to be: a realloc that splits the last block leaves
    `tail` behind (src/mem/kheap.c:446-452), and then the code can look for a free bit beyond the heap. */
module HeapTail {
  import opened HeapModel
  import opened HeapProperties
  import opened HeapRuns

  // ---- After the split ------------------------------------------------------------------------

  /** After realloc has shrunk the last block, freeing it leaves two free neighbours side by side. */
  lemma StaleTailStopsJoining(st: State, ptr: int, size: int)
    requires Inv(st) && 0 < size <= MAX_REQUEST && ptr != 0 && Has(st.blocks, ptr - HEADER, false) && TailShrink(st, ptr, size)
    ensures var st1 := Realloc(st, ptr, size).0;
      Has(st1.blocks, ptr - HEADER, false) && !Coalesced(Release(st1, ptr - HEADER).blocks)
  {
    var a, i := ptr - HEADER, IndexOf(st.blocks, ptr - HEADER);
    var need := Rounded(size);
    Around(st, i);
    RoundedIs(size);
    ShrinkKeeps(st, a, need);
    var st1 := Realloc(st, ptr, size).0;
    assert st1.blocks[i] == Block(a, need, false) && st1.blocks[i + 1].free;
    AtIndex(st1.blocks, i, st.base, st.brk);
    var st2 := Release(st1, a);
    if PrevFree(st1, i) {
      assert st2.blocks[i - 1].free && st2.blocks[i] == st1.blocks[i + 1];
    } else {
      assert st2.blocks[i].free && st2.blocks[i + 1] == st1.blocks[i + 1];
    }
  }

  /** The block at the head of the free list is taken when no sufficient one is smaller. */
  lemma FirstWins(st: State, need: int)
    requires Tiled(st) && st.order != [] && need >= 16
    ensures Has(st.blocks, st.order[0], true)
    ensures Best(st.blocks, st.order, need) == st.order[0] <==>
      && SizeAt(st.blocks, st.order[0]) >= need
      && forall b :: b in st.blocks && b.free && b.size >= need ==> SizeAt(st.blocks, st.order[0]) <= b.size
  {
    hide Tiled, SizeAt;
    if 0 in st.order { OrderIs(st, 0); }
    OrderIs(st, st.order[0]);
    var k := BestIsSmallest(st.blocks, st.order, need);
    SizesAre(st);
  }

  lemma SizesAre(st: State)
    requires Tiled(st)
    ensures forall b :: b in st.blocks && b.free ==> b.addr in st.order && SizeAt(st.blocks, b.addr) == b.size
    ensures forall a :: a in st.order ==> Has(st.blocks, a, true) && st.blocks[IndexOf(st.blocks, a)].size == SizeAt(st.blocks, a)
  {
    forall b | b in st.blocks && b.free
      ensures b.addr in st.order && SizeAt(st.blocks, b.addr) == b.size
    {
      var j :| 0 <= j < |st.blocks| && st.blocks[j] == b;
      Place(st, j);
    }
    forall a | a in st.order
      ensures Has(st.blocks, a, true)
    {
      OrderIs(st, a);
    }
  }

  /** A block taken from the break makes up for it. */
  lemma GrowingHealsTheTail(st: State, ptr: int, size: int, need: int)
    requires Inv(st) && 0 < size <= MAX_REQUEST && ptr != 0 && Has(st.blocks, ptr - HEADER, false) && TailShrink(st, ptr, size)
    requires 16 <= need && need % 16 == 0 && CanGrow(st, need)
    ensures Inv(Grow(Realloc(st, ptr, size).0, need))
  {
    hide Realloc, Tiled;
    ReallocKeeps(st, ptr, size);
    var st1 := Realloc(st, ptr, size).0;
    var healed := st1.(tail := LastAddr(st1.blocks));
    TiledTail(st1, healed);
    ShrinkBounds(st, ptr, size);
    GrowKeeps(healed, need);
    assert Grow(st1, need) == Grow(healed, need);
  }

  lemma ShrinkBounds(st: State, ptr: int, size: int)
    requires size > 0 && ptr != 0 && Has(st.blocks, ptr - HEADER, false) && TailShrink(st, ptr, size)
    ensures var st1 := Realloc(st, ptr, size).0; (st1.brk, st1.mapped, st1.limit) == (st.brk, st.mapped, st.limit)
  {
    RoundedIs(size);
  }

  lemma TiledTail(st: State, st': State)
    requires Tiled(st) && st' == st.(tail := st'.tail)
    ensures Tiled(st')
  {
  }

  /** Three calls from the empty heap that end with two free blocks in a row. */
  lemma StaleTailExample()
    ensures exists sts: seq<State>, ops: seq<Op> ::
      Run(sts, ops) && sts[0] == State(0xC040_0000, 0xCFFF_FFFF, 0xC040_0000, 0xC340_0000, [], [], 0) && Inv(sts[0])
      && |ops| == 3 && !Coalesced(sts[3].blocks)
  {
    var b := 0xC040_0000;
    var s0 := State(b, 0xCFFF_FFFF, b, 0xC340_0000, [], [], 0);
    var ops := [Alloc(64), Resize(b + HEADER, 16), Dispose(b + HEADER)];
    var s1 := Step(s0, ops[0]).0;
    assert s1.blocks == [Block(b, 64, false)] && s1.tail == b;
    var s2 := Step(s1, ops[1]).0;
    assert s2.blocks == [Block(b, 16, false), Block(b + 32, 32, true)] && s2.tail == b;
    var s3 := Step(s2, ops[2]).0;
    assert s3.blocks == [Block(b, 16, true), Block(b + 32, 32, true)];
    assert s3.blocks[0].free && s3.blocks[1].free;
    NothingTiled(s0);
    var sts := [s0, s1, s2, s3];
    assert Moves(sts, ops, 0) && Moves(sts, ops, 1) && Moves(sts, ops, 2);
    assert Run(sts, ops);
  }

  // ---- Where the code looks for a free bit -------------------------------------------------------

  /** Malloc asks whether the block behind the one it splits is free. */
  predicate MallocLooksPast(st: State, size: int) {
    var need := Rounded(size);
    var best := Best(st.blocks, st.order, need);
    size != 0 && Has(st.blocks, best, true) && SizeAt(st.blocks, best) - need >= SPLIT_MIN && LooksPast(st, NextOf(st, best))
  }

  /** Free asks about both neighbours. */
  predicate FreeLooksPast(st: State, a: int) { LooksPast(st, PrevOf(st, a)) || LooksPast(st, NextOf(st, a)) }

  /** Realloc asks about its next block when it grows or splits, about its previous block when it cannot grow into the next
      one, and goes on to malloc and free when it must move. */
  predicate ReallocLooksPast(st: State, ptr: int, size: int)
    requires ptr != 0 && Has(st.blocks, ptr - HEADER, false)
  {
    var a, i := ptr - HEADER, IndexOf(st.blocks, ptr - HEADER);
    var b := st.blocks[i];
    if b.size == size then false
    else if b.size < size then
      || LooksPast(st, NextOf(st, a))
      || (!PathOf(st, i, size).IntoNext? && LooksPast(st, PrevOf(st, a)))
      || (PathOf(st, i, size).Move? && (MallocLooksPast(st, size) || (
            var (st1, r) := Malloc(st, size); r.Pointer? && FreeLooksPast(st1, a))))
    else b.size - Rounded(size) >= SPLIT_MIN && LooksPast(st, NextOf(st, a))
  }

  predicate CallLooksPast(st: State, op: Op)
    requires Allowed(st, op)
  {
    match op
    case Alloc(size) => MallocLooksPast(st, size)
    case Dispose(ptr) => FreeLooksPast(st, ptr - HEADER)
    case Resize(ptr, size) =>
      if ptr == 0 then MallocLooksPast(st, size)
      else if size == 0 then FreeLooksPast(st, ptr - HEADER)
      else ReallocLooksPast(st, ptr, size)
  }

  /** `tail` names another block than the last one. */
  predicate Stale(st: State) { st.blocks != [] && st.tail != LastAddr(st.blocks) }

  /** Malloc would split the block at the end of the heap. */
  predicate SplitsLast(st: State, size: int) {
    && size != 0 && Best(st.blocks, st.order, Rounded(size)) == LastAddr(st.blocks)
    && SizeAt(st.blocks, LastAddr(st.blocks)) - Rounded(size) >= SPLIT_MIN
  }

  /** Realloc would grow or split the block at the end of the heap, or move another one into it and split it. */
  predicate ResizesLast(st: State, ptr: int, size: int)
    requires ptr != 0 && Has(st.blocks, ptr - HEADER, false)
  {
    var i := IndexOf(st.blocks, ptr - HEADER);
    var b := st.blocks[i];
    if i + 1 == |st.blocks| then b.size < size || (b.size > size && b.size - Rounded(size) >= SPLIT_MIN)
    else PathOf(st, i, size).Move? && SplitsLast(st, size)
  }

  /** The step from block i in either direction ends inside the heap, except behind the last block when `tail` does not
      name it. */
  lemma StepsInside(st: State, i: nat)
    requires Tiled(st) && i < |st.blocks|
    ensures !LooksPast(st, PrevOf(st, st.blocks[i].addr))
    ensures LooksPast(st, NextOf(st, st.blocks[i].addr)) <==> i + 1 == |st.blocks| && Stale(st)
  {
    hide Tiled;
    Place(st, i);
    Base(st);
    if i > 0 { Place(st, i - 1); }
    if i + 1 < |st.blocks| { Place(st, i + 1); } else { LastEnd(st); }
  }

  lemma Base(st: State)
    requires Tiled(st)
    ensures 0 < st.base <= st.brk
  {
  }

  lemma LastEnd(st: State)
    requires Tiled(st) && st.blocks != []
    ensures st.blocks[|st.blocks| - 1].End() == st.brk
  {
    EndsAtBreak(st.blocks, st.base, st.brk);
  }

  lemma MallocLooks(st: State, size: int)
    requires Tiled(st) && size >= 0
    ensures MallocLooksPast(st, size) <==> Stale(st) && SplitsLast(st, size)
  {
    hide Tiled, LooksPast, NextOf, PrevOf, SizeAt;
    if size > 0 {
      var need := Rounded(size);
      RoundedIs(size);
      var best := Best(st.blocks, st.order, need);
      FitsOrNone(st, need);
      if best != 0 {
        var i := IndexOf(st.blocks, best);
        Place(st, i);
        StepsInside(st, i);
      } else if st.blocks != [] {
        Base(st);
        Place(st, |st.blocks| - 1);
      }
    }
  }

  /** A free block has been found, or there is none at address 0. */
  lemma FitsOrNone(st: State, need: int)
    requires Tiled(st) && need >= 16
    ensures var best := Best(st.blocks, st.order, need);
      if best != 0 then Has(st.blocks, best, true) && SizeAt(st.blocks, best) >= need else !Has(st.blocks, 0, true)
  {
    var healed := st.(tail := LastAddr(st.blocks));
    TiledTail(st, healed);
    TakesWhenFits(healed, need);
  }

  lemma FreeLooks(st: State, a: int)
    requires Tiled(st) && Has(st.blocks, a, false)
    ensures FreeLooksPast(st, a) <==> Stale(st) && a == LastAddr(st.blocks)
  {
    hide Tiled, LooksPast, NextOf, PrevOf;
    var i := IndexOf(st.blocks, a);
    Place(st, i);
    StepsInside(st, i);
  }

  /** Malloc never moves the end of the last block down, whatever `tail` is. */
  lemma MallocExtends(st: State, size: int)
    requires Tiled(st) && 0 < size <= MAX_REQUEST && Malloc(st, size).1.Pointer?
    ensures var st1 := Malloc(st, size).0; Tiled(st1) && LastAddr(st1.blocks) >= LastAddr(st.blocks)
    ensures var st1 := Malloc(st, size).0; !Stale(st) ==> !Stale(st1)
  {
    hide Tiled, Best;
    var healed := st.(tail := LastAddr(st.blocks));
    TiledTail(st, healed);
    MallocKeeps(healed, size);
    var st1, st2 := Malloc(st, size).0, Malloc(healed, size).0;
    assert st1 == st2.(tail := st1.tail);
    TiledTail(st2, st1);
    LastGrows(st, size);
  }

  lemma LastGrows(st: State, size: int)
    requires Tiled(st) && 0 < size <= MAX_REQUEST
    ensures LastAddr(Malloc(st, size).0.blocks) >= LastAddr(st.blocks)
  {
    hide Tiled, Best, Take, Rounded;
    var need := Rounded(size);
    RoundedIs(size);
    Base(st);
    if st.blocks != [] { Place(st, |st.blocks| - 1); }
    var best := Best(st.blocks, st.order, need);
    if Has(st.blocks, best, true) {
      TakeLast(st, best, need);
    } else {
      assert LastAddr(Grow(st, need).blocks) == st.brk;
    }
  }

  lemma TakeLast(st: State, a: int, need: int)
    requires Has(st.blocks, a, true) && need >= 0
    ensures LastAddr(Take(st, a, need).blocks) >= LastAddr(st.blocks)
  {
    var bs, i, now := st.blocks, IndexOf(st.blocks, a), Take(st, a, need).blocks;
    if i + 1 < |bs| {
      assert now[|now| - 1] == bs[|bs| - 1];
    } else {
      assert now[|now| - 1].addr >= a;
    }
  }

  lemma ReallocLooks(st: State, ptr: int, size: int)
    requires Tiled(st) && ptr != 0 && 0 < size <= MAX_REQUEST && Has(st.blocks, ptr - HEADER, false)
    ensures ReallocLooksPast(st, ptr, size) <==> Stale(st) && ResizesLast(st, ptr, size)
  {
    hide Tiled, LooksPast, NextOf, PrevOf, MallocLooksPast, FreeLooksPast, SplitsLast, Malloc;
    var a, i := ptr - HEADER, IndexOf(st.blocks, ptr - HEADER);
    StepsInside(st, i);
    MallocLooks(st, size);
    Place(st, i);
    if PathOf(st, i, size).Move? && Malloc(st, size).1.Pointer? && (a != LastAddr(st.blocks) || !Stale(st)) {
      MovedFrom(st, a, size);
    }
  }

  /** When realloc frees the old block after malloc, that block is not the last one, or `tail` is right. */
  lemma MovedFrom(st: State, a: int, size: int)
    requires Tiled(st) && 0 < size <= MAX_REQUEST && Has(st.blocks, a, false) && Malloc(st, size).1.Pointer?
    requires a != LastAddr(st.blocks) || !Stale(st)
    ensures !FreeLooksPast(Malloc(st, size).0, a)
  {
    hide Tiled, LooksPast, NextOf, PrevOf, Malloc, FreeLooksPast;
    var st1 := Malloc(st, size).0;
    MallocExtends(st, size);
    StillUsed(st, a, size);
    FreeLooks(st1, a);
    if Stale(st) { NotLast(st, a); }
  }

  lemma NotLast(st: State, a: int)
    requires Tiled(st) && Has(st.blocks, a, false)
    ensures a <= LastAddr(st.blocks)
  {
    ChainOrdered(st.blocks, st.base, st.brk);
    ChainWithin(st.blocks, st.base, st.brk);
  }

  lemma StillUsed(st: State, a: int, size: int)
    requires Tiled(st) && 0 < size <= MAX_REQUEST && Has(st.blocks, a, false) && Malloc(st, size).1.Pointer?
    ensures Has(Malloc(st, size).0.blocks, a, false)
  {
    hide Tiled, Best, Used;
    var healed := st.(tail := LastAddr(st.blocks));
    TiledTail(st, healed);
    MallocKeeps(healed, size);
    MallocExtends(st, size);
    var st1, i := Malloc(st, size).0, IndexOf(st.blocks, a);
    assert st1.blocks == Malloc(healed, size).0.blocks;
    assert st.blocks[i] in Used(st.blocks) by { UsedAt(st.blocks, i); }
    UsedIs(st1, st.blocks[i]);
  }

  lemma UsedAt(bs: seq<Block>, i: nat)
    requires i < |bs| && !bs[i].free
    ensures bs[i] in Used(bs)
  {
  }

  /** A call looks for a free bit beyond the heap exactly when `tail` is stale and the call splits, frees or resizes the
      block at the end of the heap. */
  lemma LooksExactly(st: State, op: Op)
    requires Tiled(st) && Allowed(st, op)
    ensures CallLooksPast(st, op) <==> Stale(st) && match op
      case Alloc(size) => SplitsLast(st, size)
      case Dispose(ptr) => ptr - HEADER == LastAddr(st.blocks)
      case Resize(ptr, size) =>
        if ptr == 0 then SplitsLast(st, size)
        else if size == 0 then ptr - HEADER == LastAddr(st.blocks)
        else ResizesLast(st, ptr, size)
  {
    hide Tiled, MallocLooksPast, FreeLooksPast, ReallocLooksPast, Stale, SplitsLast, ResizesLast, LastAddr;
    match op
    case Alloc(size) => MallocLooks(st, size);
    case Dispose(ptr) => FreeLooks(st, ptr - HEADER);
    case Resize(ptr, size) =>
      if ptr == 0 {
        MallocLooks(st, size);
      } else if size == 0 {
        FreeLooks(st, ptr - HEADER);
      } else {
        ReallocLooks(st, ptr, size);
      }
  }

  /** In every run up to its first split of the last block, no call looks beyond the heap. */
  lemma NeverBefore(sts: seq<State>, ops: seq<Op>)
    requires Run(sts, ops) && Inv(sts[0])
    requires forall i :: 0 <= i < |ops| - 1 ==> !LosesTail(sts[i], ops[i])
    ensures forall i :: 0 <= i < |ops| ==> Allowed(sts[i], ops[i]) && !CallLooksPast(sts[i], ops[i])
  {
    hide LosesTail, CallLooksPast, Allowed, Tiled;
    RunKeeps(sts, ops);
    forall i | 0 <= i < |ops|
      ensures Allowed(sts[i], ops[i]) && !CallLooksPast(sts[i], ops[i])
    {
      assert Moves(sts, ops, i);
      LooksExactly(sts[i], ops[i]);
    }
  }

  /** After such a split the part split off is the block at the end. Malloc takes it exactly when no smaller free block
      suffices, and looks beyond the heap exactly when it then splits it again. */
  lemma RemainderIsTaken(st: State, ptr: int, size: int, small: int)
    requires Inv(st) && 0 < size <= MAX_REQUEST && ptr != 0 && Has(st.blocks, ptr - HEADER, false) && TailShrink(st, ptr, size)
    requires small > 0
    ensures var st1 := Realloc(st, ptr, size).0; var r, need := LastAddr(st1.blocks), Rounded(small);
      && Stale(st1) && Has(st1.blocks, r, true)
      && (Best(st1.blocks, st1.order, need) == r <==>
          SizeAt(st1.blocks, r) >= need && forall b :: b in st1.blocks && b.free && b.size >= need ==> SizeAt(st1.blocks, r) <= b.size)
      && (MallocLooksPast(st1, small) <==> Best(st1.blocks, st1.order, need) == r && SizeAt(st1.blocks, r) - need >= SPLIT_MIN)
  {
    hide MallocLooksPast;
    var a, i := ptr - HEADER, IndexOf(st.blocks, ptr - HEADER);
    var st1 := Realloc(st, ptr, size).0;
    RoundedIs(size);
    RoundedIs(small);
    Around(st, i);
    ShrinkKeeps(st, a, Rounded(size));
    var r := LastAddr(st1.blocks);
    assert st1.blocks[i + 1].addr == r && st1.order[0] == r;
    FirstWins(st1, Rounded(small));
    MallocLooks(st1, small);
  }

  /** Malloc 64, realloc 16, malloc 32: the part split off is taken whole, and nothing is looked for beyond the heap until
      the new last block is freed or resized. */
  lemma WholeTakeExample()
    ensures var b := 0xC040_0000;
      var s2 := State(b, 0xCFFF_FFFF, b + 80, 0xC340_0000, [Block(b, 16, false), Block(b + 32, 32, true)], [b + 32], b);
      var s3 := Take(s2, b + 32, 32);
      && MallocAndShrink(64, 16) == s2 && Malloc(s2, 32) == (s3, Pointer(b + 32 + HEADER))
      && !MallocLooksPast(s2, 32) && Has(s3.blocks, b + 32, false)
      && FreeLooksPast(s3, b + 32) && ReallocLooksPast(s3, b + 32 + HEADER, 64)
  {
    var b := 0xC040_0000;
    var s2 := State(b, 0xCFFF_FFFF, b + 80, 0xC340_0000, [Block(b, 16, false), Block(b + 32, 32, true)], [b + 32], b);
    assert Best(s2.blocks, s2.order, 32) == b + 32 by { assert s2.order[..0] == []; }
    var s3 := Take(s2, b + 32, 32);
    assert s3.blocks == [Block(b, 16, false), Block(b + 32, 32, false)];
  }

  /** Malloc and a shrinking realloc of the same block, from the empty heap. */
  function MallocAndShrink(size: int, less: int): State {
    var b := 0xC040_0000;
    var s1 := Malloc(State(b, 0xCFFF_FFFF, b, 0xC340_0000, [], [], 0), size).0;
    if Has(s1.blocks, b, false) then Realloc(s1, b + HEADER, less).0 else s1
  }

  /** Malloc 256, realloc 16, malloc 16: the part split off is split again, and its size word is not the last one read. */
  lemma SplitAgainExample()
    ensures MallocLooksPast(MallocAndShrink(256, 16), 16)
  {
    var b := 0xC040_0000;
    var s2 := State(b, 0xCFFF_FFFF, b + 272, 0xC340_0000, [Block(b, 16, false), Block(b + 32, 224, true)], [b + 32], b);
    assert MallocAndShrink(256, 16) == s2;
    assert Best(s2.blocks, s2.order, 16) == b + 32 by { assert s2.order[..0] == []; }
  }
}
