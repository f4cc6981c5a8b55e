/** Where malloc and realloc put blocks, told from the blocks of the heap alone (src/mem/kheap.c:247-327, 370-455). */
module HeapPlaces {
  import opened HeapModel
  import opened HeapProperties

  /** A request rounded up to the next multiple of sixteen. */
  predicate RoundsTo(size: int, need: int) { need % 16 == 0 && size <= need < size + 16 }

  /** The free block f has room for need, and no free block that has is smaller. */
  ghost predicate Tightest(bs: seq<Block>, need: int, f: Block) {
    f in bs && f.free && f.size >= need && forall g :: g in bs && g.free && g.size >= need ==> f.size <= g.size
  }

  ghost predicate SomeFits(bs: seq<Block>, need: int) { exists g :: g in bs && g.free && g.size >= need }

  /** The break can move up by a block of need bytes. */
  predicate BreakMoves(st: State, need: int) { st.brk + need + 16 <= st.mapped || st.brk + need + 16 <= st.limit }

  /** Malloc takes the front of a tightest free block, and all of it when fewer than 24 bytes would remain; without a block
      that is large enough it takes a block of the rounded size from the break, and panics only if the break cannot move. */
  lemma MallocPlace(st: State, size: int, need: int) returns (f: Block)
    requires Inv(st) && 0 < size <= MAX_REQUEST && RoundsTo(size, need)
    ensures var (st', r) := Malloc(st, size);
      if SomeFits(st.blocks, need) then
        && Tightest(st.blocks, need, f) && r == Pointer(f.addr + 12) && st'.brk == st.brk
        && Block(f.addr, if f.size - need < 24 then f.size else need, false) in st'.blocks
      else if BreakMoves(st, need) then
        && r == Pointer(st.brk + 12) && st'.brk == st.brk + need + 16
        && st'.blocks == st.blocks + [Block(st.brk, need, false)]
      else r == Panic && st' == st
  {
    hide Inv, Take, Best, SizeAt, RoundsTo, Rounded;
    SameRounding(size, need);
    RoundedIs(size);
    f := Block(0, 0, false);
    TakesWhenFits(st, need);
    if SomeFits(st.blocks, need) {
      var a := Best(st.blocks, st.order, need);
      f := TightestIs(st, need);
      Taken(st, a, need);
    } else {
      assert !Has(st.blocks, Best(st.blocks, st.order, need), true);
    }
  }

  lemma SameRounding(size: int, need: int)
    requires size > 0 && RoundsTo(size, need)
    ensures need == Rounded(size) && need >= 16
  {
    RoundedIs(size);
    var q := BySixteen(need);
    var r := BySixteen(Rounded(size));
  }

  /** The block that best fit finds is a tightest one. */
  lemma TightestIs(st: State, need: int) returns (f: Block)
    requires Inv(st) && need >= 16 && SomeFits(st.blocks, need)
    ensures Tightest(st.blocks, need, f) && f.addr == Best(st.blocks, st.order, need)
    ensures Has(st.blocks, f.addr, true) && st.blocks[IndexOf(st.blocks, f.addr)] == f && f.addr in st.order
  {
    hide Best;
    TakesWhenFits(st, need);
    if 0 in st.order { OrderIs(st, 0); }
    var k := BestIsSmallest(st.blocks, st.order, need);
    var a := Best(st.blocks, st.order, need);
    f := st.blocks[IndexOf(st.blocks, a)];
    forall g | g in st.blocks && g.free && g.size >= need
      ensures f.size <= g.size
    {
      var j :| 0 <= j < |st.blocks| && st.blocks[j] == g;
      Place(st, j);
    }
  }

  lemma Taken(st: State, a: int, need: int)
    requires Has(st.blocks, a, true)
    ensures var f := st.blocks[IndexOf(st.blocks, a)];
      Block(a, if f.size - need < 24 then f.size else need, false) in Take(st, a, need).blocks && Take(st, a, need).brk == st.brk
  {
    var i := IndexOf(st.blocks, a);
    assert Take(st, a, need).blocks[i] == Block(a, if st.blocks[i].size - need < 24 then st.blocks[i].size else need, false);
  }

  // ---- realloc ----------------------------------------------------------------------------------

  /** Block i and its free right neighbour together have room for need bytes. */
  predicate NextHasRoom(bs: seq<Block>, i: nat, need: int)
    requires i < |bs|
  {
    i + 1 < |bs| && bs[i + 1].free && bs[i].size + 16 + bs[i + 1].size >= need
  }

  predicate PrevHasRoom(bs: seq<Block>, i: nat, need: int)
    requires i < |bs|
  {
    i > 0 && bs[i - 1].free && bs[i].size + 16 + bs[i - 1].size >= need
  }

  /** Realloc of a live block to a size it has stays in place, and gives back a rest of 24 bytes or more. */
  lemma ShrinksInPlace(st: State, i: nat, size: int, need: int)
    requires Inv(st) && 0 < size <= MAX_REQUEST && RoundsTo(size, need) && i < |st.blocks| && !st.blocks[i].free
    requires size <= st.blocks[i].size
    ensures Has(st.blocks, st.blocks[i].addr, false) && st.blocks[i].addr > 0
    ensures var b := st.blocks[i]; var (st', r) := Realloc(st, b.addr + 12, size);
      && r == Pointer(b.addr + 12) && st'.brk == st.brk
      && Block(b.addr, if b.size - need < 24 then b.size else need, false) in st'.blocks
  {
    hide RoundsTo, Realloc, Inv;
    SameRounding(size, need);
    UsedHere(st, i);
    SizeIsWhole(st, i);
    if st.blocks[i].size - need < 24 {
      StaysWhole(st, i, size, need);
    } else {
      GivesBack(st, i, size, need);
    }
  }

  lemma SizeIsWhole(st: State, i: nat)
    requires Inv(st) && i < |st.blocks|
    ensures st.blocks[i].size % 16 == 0
  {
    Place(st, i);
  }

  lemma StaysWhole(st: State, i: nat, size: int, need: int)
    requires i < |st.blocks| && IndexOf(st.blocks, st.blocks[i].addr) == i && !st.blocks[i].free && st.blocks[i].addr > 0
    requires need == Rounded(size) && 0 < size <= st.blocks[i].size && st.blocks[i].size - need < 24
    ensures Realloc(st, st.blocks[i].addr + 12, size) == (st, Pointer(st.blocks[i].addr + 12))
    ensures Block(st.blocks[i].addr, st.blocks[i].size, false) in st.blocks
  {
    assert st.blocks[i] == Block(st.blocks[i].addr, st.blocks[i].size, false);
  }

  lemma GivesBack(st: State, i: nat, size: int, need: int)
    requires i < |st.blocks| && IndexOf(st.blocks, st.blocks[i].addr) == i && !st.blocks[i].free && st.blocks[i].addr > 0
    requires need == Rounded(size) && 0 < size <= st.blocks[i].size && st.blocks[i].size - need >= 24 && size <= need
    ensures var b := st.blocks[i]; var (st', r) := Realloc(st, b.addr + 12, size);
      r == Pointer(b.addr + 12) && st'.brk == st.brk && Block(b.addr, need, false) in st'.blocks
  {
    hide Rounded, Without, IndexOf, NextFree;
    var b := st.blocks[i];
    var st' := Realloc(st, b.addr + 12, size).0;
    assert st' == Shrink(st, i, need);
    assert st'.blocks[i] == Block(b.addr, need, false);
  }

  /** Realloc of a live block to a size beyond its own stays in place exactly when the next block is free and has room; else it
      moves into the previous block when that one is free and has room; else it goes where malloc puts it, and panics exactly
      when malloc finds nothing. */
  lemma GrowsWhere(st: State, i: nat, size: int, need: int)
    requires Inv(st) && 0 < size <= MAX_REQUEST && RoundsTo(size, need) && i < |st.blocks| && !st.blocks[i].free
    requires st.blocks[i].size < size
    ensures Has(st.blocks, st.blocks[i].addr, false) && st.blocks[i].addr > 0
    ensures var bs := st.blocks; var (st', r) := Realloc(st, bs[i].addr + 12, size);
      && (r == Pointer(bs[i].addr + 12) <==> NextHasRoom(bs, i, need))
      && (NextHasRoom(bs, i, need) ==> Block(bs[i].addr, bs[i].size + 16 + bs[i + 1].size, false) in st'.blocks)
      && (!NextHasRoom(bs, i, need) && PrevHasRoom(bs, i, need) ==>
            r == Pointer(bs[i - 1].addr + 12) && Block(bs[i - 1].addr, bs[i].size + 16 + bs[i - 1].size, false) in st'.blocks)
      && (!NextHasRoom(bs, i, need) && !PrevHasRoom(bs, i, need) ==> r == Malloc(st, size).1)
      && (r == Panic <==>
            !NextHasRoom(bs, i, need) && !PrevHasRoom(bs, i, need) && !SomeFits(bs, need) && !BreakMoves(st, need))
  {
    hide RoundsTo, Malloc, Realloc, SomeFits, BreakMoves, Best, Inv;
    UsedHere(st, i);
    if NextHasRoom(st.blocks, i, need) {
      GrowsRight(st, i, size, need);
    } else if PrevHasRoom(st.blocks, i, need) {
      GrowsLeft(st, i, size, need);
    } else {
      GoesElsewhere(st, i, size, need);
      var f := MallocPlace(st, size, need);
      MovesAway(st, i, size);
    }
  }

  lemma UsedHere(st: State, i: nat)
    requires Inv(st) && i < |st.blocks|
    ensures st.blocks[i].addr > 0 && IndexOf(st.blocks, st.blocks[i].addr) == i
  {
    Place(st, i);
  }

  lemma GrowsRight(st: State, i: nat, size: int, need: int)
    requires Inv(st) && 0 < size <= MAX_REQUEST && RoundsTo(size, need) && i < |st.blocks| && !st.blocks[i].free
    requires st.blocks[i].size < size && NextHasRoom(st.blocks, i, need) && Has(st.blocks, st.blocks[i].addr, false)
    ensures var bs := st.blocks; var (st', r) := Realloc(st, bs[i].addr + 12, size);
      bs[i].addr > 0 && r == Pointer(bs[i].addr + 12) && Block(bs[i].addr, bs[i].size + 16 + bs[i + 1].size, false) in st'.blocks
  {
    hide RoundsTo, Malloc, Tiled;
    SameRounding(size, need);
    UsedHere(st, i);
    NextFreeMeans(st, i);
    assert Realloc(st, st.blocks[i].addr + 12, size).0 == AbsorbNext(st, i);
    assert AbsorbNext(st, i).blocks[i] == Block(st.blocks[i].addr, st.blocks[i].size + 16 + st.blocks[i + 1].size, false);
  }

  lemma GrowsLeft(st: State, i: nat, size: int, need: int)
    requires Inv(st) && 0 < size <= MAX_REQUEST && RoundsTo(size, need) && i < |st.blocks| && !st.blocks[i].free
    requires st.blocks[i].size < size && !NextHasRoom(st.blocks, i, need) && PrevHasRoom(st.blocks, i, need)
    requires Has(st.blocks, st.blocks[i].addr, false)
    ensures var bs := st.blocks; var (st', r) := Realloc(st, bs[i].addr + 12, size);
      && bs[i].addr > 0 && bs[i - 1].addr < bs[i].addr && r == Pointer(bs[i - 1].addr + 12)
      && Block(bs[i - 1].addr, bs[i].size + 16 + bs[i - 1].size, false) in st'.blocks
  {
    hide RoundsTo, Malloc, Tiled;
    SameRounding(size, need);
    UsedHere(st, i);
    UsedHere(st, i - 1);
    NextFreeMeans(st, i);
    assert st.blocks[i - 1].addr < st.blocks[i].addr by { Place(st, i); Place(st, i - 1); }
    assert Realloc(st, st.blocks[i].addr + 12, size).0 == AbsorbPrev(st, i);
    assert AbsorbPrev(st, i).blocks[i - 1] == Block(st.blocks[i - 1].addr, st.blocks[i].size + 16 + st.blocks[i - 1].size, false);
  }

  lemma GoesElsewhere(st: State, i: nat, size: int, need: int)
    requires Inv(st) && 0 < size <= MAX_REQUEST && RoundsTo(size, need) && i < |st.blocks| && !st.blocks[i].free
    requires st.blocks[i].size < size && !NextHasRoom(st.blocks, i, need) && !PrevHasRoom(st.blocks, i, need)
    requires Has(st.blocks, st.blocks[i].addr, false)
    ensures st.blocks[i].addr > 0 && Realloc(st, st.blocks[i].addr + 12, size).1 == Malloc(st, size).1
  {
    hide RoundsTo, Malloc, Tiled;
    SameRounding(size, need);
    UsedHere(st, i);
    NextFreeMeans(st, i);
  }

  /** A new block is not where a used one is. */
  lemma MovesAway(st: State, i: nat, size: int)
    requires Inv(st) && 0 < size <= MAX_REQUEST && i < |st.blocks| && !st.blocks[i].free
    ensures Malloc(st, size).1 != Pointer(st.blocks[i].addr + 12)
  {
    hide Malloc, NewBlock, Tiled;
    if Malloc(st, size).1.Pointer? {
      MallocKeeps(st, size);
      Place(st, i);
      assert st.blocks[i] in Used(st.blocks);
      NewHasSize(st, size);
    }
  }

  lemma NewHasSize(st: State, size: int)
    requires Inv(st) && 0 < size <= MAX_REQUEST && Malloc(st, size).1.Pointer?
    ensures NewBlock(st, size).size >= 0
  {
    hide Malloc, Inv, NewBlock;
    MallocKeeps(st, size);
  }

  // ---- The order of the free list ------------------------------------------------------------------

  /** The elements of s that are to be kept, in their order. */
  function Kept(s: seq<int>, keep: set<int>): seq<int> {
    if s == [] then [] else (if s[0] in keep then [s[0]] else []) + Kept(s[1..], keep)
  }

  lemma {:induction false} KeptAll(s: seq<int>, keep: set<int>)
    requires forall y :: y in s ==> y in keep
    ensures Kept(s, keep) == s
  {
    if s != [] {
      KeptAll(s[1..], keep);
      var y := s[0];
      assert y in s && y in keep;
      assert Kept(s, keep) == [y] + s[1..];
    }
  }

  lemma {:induction false} KeptWithout(s: seq<int>, x: int, keep: set<int>)
    requires Distinct(s) && forall y :: y in s ==> (y in keep <==> y != x)
    ensures Kept(s, keep) == Without(s, x)
  {
    if s != [] {
      assert s[0] in s;
      if s[0] == x {
        forall y | y in s[1..]
          ensures y in keep
        {
          var k :| 0 <= k < |s[1..]| && s[1..][k] == y;
          assert s[k + 1] != s[0];
        }
        KeptAll(s[1..], keep);
      } else {
        KeptWithout(s[1..], x, keep);
      }
    }
  }

  /** The free list after a call: the blocks that stay free keep their order, and the addresses in front are new to it. */
  ghost predicate ListAfter(st: State, st': State, front: seq<int>) {
    && st'.order == front + Kept(st.order, FreeAddrs(st'.blocks))
    && forall x :: x in front ==> x !in FreeAddrs(st.blocks)
  }

  /** A list made by putting new addresses in front and dropping one. */
  lemma ListIs(st: State, st': State, front: seq<int>, gone: int)
    requires Tiled(st) && Tiled(st') && st'.order == front + Without(st.order, gone)
    requires gone in st.order && gone !in front && forall x :: x in front ==> x !in st.order
    ensures ListAfter(st, st', front)
  {
    hide Chain, Coalesced;
    WithoutElems(st.order, gone);
    forall y | y in st.order
      ensures y in FreeAddrs(st'.blocks) <==> y != gone
    {
      assert y in Elems(st'.order) <==> y in front || y in Elems(Without(st.order, gone));
    }
    KeptWithout(st.order, gone, FreeAddrs(st'.blocks));
    assert forall x :: x in st.order <==> x in Elems(st.order);
  }

  lemma ListGrows(st: State, st': State, front: seq<int>)
    requires Tiled(st) && Tiled(st') && st'.order == front + st.order && forall x :: x in front ==> x !in st.order
    ensures ListAfter(st, st', front)
  {
    hide Chain, Coalesced;
    forall y | y in st.order
      ensures y in FreeAddrs(st'.blocks)
    {
      assert y in Elems(st'.order);
    }
    KeptAll(st.order, FreeAddrs(st'.blocks));
    assert forall x :: x in st.order <==> x in Elems(st.order);
  }

  /** A freed block goes to the front, unless it joins the free block before it, which keeps its place. */
  lemma ListAfterFree(st: State, i: nat)
    requires Inv(st) && i < |st.blocks| && !st.blocks[i].free && Has(st.blocks, st.blocks[i].addr, false)
    ensures ListAfter(st, Release(st, st.blocks[i].addr), if i > 0 && st.blocks[i - 1].free then [] else [st.blocks[i].addr])
  {
    hide Chain, Coalesced, FreeAddrs, Distinct, ListAfter, Splice, Without;
    var a, bs := st.blocks[i].addr, st.blocks;
    var st' := Release(st, a);
    UsedHere(st, i);
    NextFreeMeans(st, i);
    ReleaseKeeps(st, a);
    InOrder(st, i);
    ReleaseIs(st, a);
    if i + 1 < |bs| && bs[i + 1].free {
      InOrder(st, i + 1);
      if i > 0 && bs[i - 1].free {
        assert st'.order == [] + Without(st.order, bs[i + 1].addr);
        ListIs(st, st', [], bs[i + 1].addr);
      } else {
        assert bs[i + 1].addr != a;
        ListIs(st, st', [a], bs[i + 1].addr);
      }
    } else if i > 0 && bs[i - 1].free {
      assert st'.order == [] + st.order;
      ListGrows(st, st', []);
    } else {
      ListGrows(st, st', [a]);
    }
  }

  /** What malloc leaves of the block it takes goes to the front. */
  lemma ListAfterMalloc(st: State, size: int, need: int) returns (f: Block)
    requires Inv(st) && 0 < size <= MAX_REQUEST && RoundsTo(size, need)
    ensures ListAfter(st, Malloc(st, size).0, if SomeFits(st.blocks, need) && f.size - need >= 24 then [f.addr + 16 + need] else [])
    ensures SomeFits(st.blocks, need) ==> Tightest(st.blocks, need, f) && Malloc(st, size).1 == Pointer(f.addr + 12)
  {
    hide Tiled, Take, Best, SizeAt, RoundsTo, Rounded, ListAfter, Without;
    SameRounding(size, need);
    RoundedIs(size);
    f := Block(0, 0, false);
    TakesWhenFits(st, need);
    MallocKeeps(st, size);
    var st' := Malloc(st, size).0;
    if SomeFits(st.blocks, need) {
      f := TightestIs(st, need);
      TakenList(st, f, need);
    } else {
      assert st'.order == [] + st.order;
      ListGrows(st, st', []);
    }
  }

  lemma TakenList(st: State, f: Block, need: int)
    requires Inv(st) && Has(st.blocks, f.addr, true) && st.blocks[IndexOf(st.blocks, f.addr)] == f && f.addr in st.order
    requires 16 <= need <= f.size && need % 16 == 0
    ensures ListAfter(st, Take(st, f.addr, need), if f.size - need >= 24 then [f.addr + 16 + need] else [])
  {
    hide Chain, Coalesced, FreeAddrs, Distinct, ListAfter, Without;
    TakeKeeps(st, f.addr, need);
    var st' := Take(st, f.addr, need);
    if f.size - need >= 24 {
      FreshAddr(st, IndexOf(st.blocks, f.addr), f.addr + 16 + need);
      ListIs(st, st', [f.addr + 16 + need], f.addr);
    } else {
      assert st'.order == [] + Without(st.order, f.addr);
      ListIs(st, st', [], f.addr);
    }
  }

  /** What realloc gives back goes to the front; a neighbour it grows into leaves the list. */
  lemma ListAfterRealloc(st: State, i: nat, size: int, need: int)
    requires Inv(st) && 0 < size <= MAX_REQUEST && RoundsTo(size, need) && i < |st.blocks| && !st.blocks[i].free
    requires st.blocks[i].size < size ==> NextHasRoom(st.blocks, i, need) || PrevHasRoom(st.blocks, i, need)
    ensures Has(st.blocks, st.blocks[i].addr, false) && st.blocks[i].addr > 0
    ensures var b := st.blocks[i];
      ListAfter(st, Realloc(st, b.addr + 12, size).0, if size <= b.size && b.size - need >= 24 then [b.addr + 16 + need] else [])
  {
    hide Chain, Coalesced, FreeAddrs, Distinct, ListAfter, Without, Realloc, RoundsTo, Used, PathOf;
    UsedHere(st, i);
    SameRounding(size, need);
    NextFreeMeans(st, i);
    var b, st' := st.blocks[i], Realloc(st, st.blocks[i].addr + 12, size).0;
    ReallocKeeps(st, b.addr + 12, size);
    PathIs(st, i, size, need);
    if b.size >= size {
      if b.size - need < 24 {
        assert st'.order == [] + st.order;
        ListGrows(st, st', []);
      } else {
        FreshAddr(st, i, b.addr + 16 + need);
        if NextFree(st, i) {
          InOrder(st, i + 1);
          assert st.blocks[i + 1].addr != b.addr + 16 + need;
          ListIs(st, st', [b.addr + 16 + need], st.blocks[i + 1].addr);
        } else {
          ListGrows(st, st', [b.addr + 16 + need]);
        }
      }
    } else {
      var k := if NextHasRoom(st.blocks, i, need) then i + 1 else i - 1;
      InOrder(st, k);
      assert st'.order == [] + Without(st.order, st.blocks[k].addr);
      ListIs(st, st', [], st.blocks[k].addr);
    }
  }

  /** The free list on realloc's paths that do not move. */
  lemma PathIs(st: State, i: nat, size: int, need: int)
    requires Inv(st) && 0 < size <= MAX_REQUEST && need == Rounded(size) && i < |st.blocks| && !st.blocks[i].free
    requires IndexOf(st.blocks, st.blocks[i].addr) == i && st.blocks[i].addr > 0
    requires st.blocks[i].size < size ==> NextHasRoom(st.blocks, i, need) || PrevHasRoom(st.blocks, i, need)
    ensures var b, order := st.blocks[i], Realloc(st, st.blocks[i].addr + 12, size).0.order;
      if b.size >= size then
        if b.size - need < 24 then order == st.order
        else order == [b.addr + 16 + need] + if NextFree(st, i) then Without(st.order, st.blocks[i + 1].addr) else st.order
      else order == Without(st.order, st.blocks[if NextHasRoom(st.blocks, i, need) then i + 1 else i - 1].addr)
  {
    hide Tiled, Without, Rounded, Malloc;
    NextFreeMeans(st, i);
    RoundedIs(size);
  }

  /** Three blocks of 16 bytes, the middle one freed: growing the first to 48 bytes fits exactly and stays in place. */
  lemma ExactFitExample()
    ensures var b := 0xC040_0000;
      var st := State(b, 0xCFFF_FFFF, b + 96, 0xC340_0000,
                      [Block(b, 16, false), Block(b + 32, 16, true), Block(b + 64, 16, false)], [b + 32], b + 64);
      Realloc(st, b + 12, 48).1 == Pointer(b + 12)
  {
  }
}
