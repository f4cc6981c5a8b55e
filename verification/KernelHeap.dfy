/** malloc, free and realloc over words of memory (src/mem/kheap.c), on top of the break of Paging. */
module KernelHeap {
  import opened HeapModel
  import opened HeapProperties
  import opened HeapMemory
  import opened Paging

  /** The words from the heap's start to the last page it may reach. */
  function ArenaWords(start: nat, end: nat, max: nat): int {
    ((if PageUp(max) <= end then end else PageUp(max)) - start) / 4
  }

  lemma ArenaCovers(start: nat, end: nat, max: nat)
    requires start % PAGE_SIZE == 0 && end % PAGE_SIZE == 0 && start <= end < ADDRESS_SPACE && max < ADDRESS_SPACE - PAGE_SIZE
    ensures var words := ArenaWords(start, end, max);
            start % 4 == 0 && start % 16 == 0 && words >= 0 && end <= start + 4 * words && PageUp(max) <= start + 4 * words <= ADDRESS_SPACE
  {
    var s := ByPage(start);
    var e := ByPage(end);
    var q := (max + 4095) / 4096;
    FourDivides(start, 1024 * s);
    SixteenDivides(start, 256 * s);
    QuarterOf((if q <= e then e else q) - s);
  }

  lemma ByPage(x: int) returns (q: int)
    requires x % PAGE_SIZE == 0
    ensures x == PAGE_SIZE * q
  {
    q := x / PAGE_SIZE;
  }

  lemma QuarterOf(n: int)
    ensures PAGE_SIZE * n / 4 == 1024 * n
  {
    assert PAGE_SIZE * n == 4 * (1024 * n);
  }

  class Heap {
    const vm: KernelSpace
    const base: int                             // heap_start
    const mem: array<Word>                      // word i lies at address base + 4 * i
    var head: int
    var tail: int
    var freeList: int
    ghost var blocks: seq<Block>
    ghost var order: seq<int>

    /** The word array covers everything below the break. */
    ghost predicate Formed()
      reads vm`heapCurr, vm`Repr
    {
      && 0 < base && base % 4 == 0 && base % 16 == 0 && base + 4 * mem.Length <= ADDRESS_SPACE
      && base <= vm.heapCurr <= base + 4 * mem.Length
      && mem !in vm.Repr && this as object !in vm.Repr
    }

    ghost predicate In(a: int)
      reads vm`heapCurr
    {
      base <= a && a + 4 <= vm.heapCurr && a % 4 == 0
    }

    ghost function View(): Image
      requires base % 4 == 0
      reads mem
    {
      map a: int | base <= a < base + 4 * mem.Length && a % 4 == 0 :: mem[(a - base) / 4]
    }

    /** Loads and stores stay below the break, so on mapped pages. */
    function Load(a: int): (v: int)
      requires Formed() && In(a)
      reads mem, vm`heapCurr, vm`Repr
      ensures v == At(View(), a) && 0 <= v < ADDRESS_SPACE
    {
      mem[(a - base) / 4]
    }

    method Store(a: int, v: int)
      requires Formed() && In(a) && 0 <= v < ADDRESS_SPACE
      modifies mem
      ensures View() == old(View())[a := v]
    {
      ghost var m := View();
      mem[(a - base) / 4] := v;
      forall b: int | base <= b < base + 4 * mem.Length && b % 4 == 0
        ensures mem[(b - base) / 4] == m[a := v][b]
      {
        WordOf(a, b);
      }
      assert View().Keys == m[a := v].Keys;
    }

    lemma WordOf(a: int, b: int)
      requires base % 4 == 0 && a % 4 == 0 && b % 4 == 0 && base <= a && base <= b
      ensures (a - base) / 4 == (b - base) / 4 <==> a == b
    {
    }

    ghost function Tiling(): State
      reads this, vm
    {
      State(base, vm.heapMax, vm.heapCurr, vm.heapEnd, blocks, order, tail)
    }

    ghost predicate Based()
      reads vm, vm.Repr
    {
      && vm.Valid() && vm.Sound() && vm.Covered() && vm.HeapMapped() && vm.heapStart == base
      && Formed() && vm.heapEnd <= base + 4 * mem.Length && PageUp(vm.heapMax) <= base + 4 * mem.Length
    }

    /** Every word of the heap lies on a page that the processor maps for reading and writing. */
    lemma HeapWritable(a: int)
      requires Based() && base <= a < vm.heapCurr
      ensures 0 <= a / PAGE_SIZE < PAGES && vm.Writable(a / PAGE_SIZE)
      ensures a / PAGE_SIZE in vm.pages && vm.HardwareMaps(a / PAGE_SIZE, vm.pages[a / PAGE_SIZE], true, true)
    {
      hide KernelSpace.Valid, KernelSpace.Covered;
      vm.AllWritable(a / PAGE_SIZE);
      vm.HardwareAgrees(a / PAGE_SIZE, vm.pages[a / PAGE_SIZE], true, true);
    }

    /** Everything but the position of `tail`. */
    ghost predicate Laid()
      reads this, mem, vm, vm.Repr
    {
      && Based()
      && Tiled(Tiling())
      && Tags(View(), blocks)
      && Listed(View(), order, freeList)
      && head == (if blocks == [] then 0 else base)
    }

    ghost predicate Valid()
      reads this, mem, vm, vm.Repr
    {
      Laid() && tail == LastAddr(blocks)
    }

    constructor (space: KernelSpace)
      requires space.Valid() && space.Sound() && space.Covered() && space.HeapMapped()
      requires 0 < space.heapStart == space.heapCurr && space.heapEnd < ADDRESS_SPACE
      ensures Valid() && vm == space && fresh(mem) && blocks == []
    {
      hide KernelSpace.Valid, KernelSpace.Sound, KernelSpace.Covered, Chain, FreeAddrs;
      vm := space;
      base := space.heapStart;
      ArenaCovers(space.heapStart, space.heapEnd, space.heapMax);
      var words := ArenaWords(space.heapStart, space.heapEnd, space.heapMax);
      mem := new Word[words];
      head, tail, freeList := 0, 0, 0;
      blocks, order := [], [];
      new;
      NothingTiled(Tiling());
    }

    // ---- The free list ----

    ghost predicate ListOk()
      reads this`order, this`freeList, mem, vm`heapCurr, vm`Repr
    {
      && Formed()
      && Listed(View(), order, freeList) && Distinct(order)
      && forall a :: a in order ==> In(a) && In(a + 4)
    }

    method RemoveFromList(block: int)
      requires ListOk() && block in order
      modifies mem, this`freeList, this`order
      ensures ListOk() && order == Without(old(order), block)
      ensures LinksOnly(old(View()), View(), old(order))
    {
      hide View, Listed, Distinct, In, Without;
      ghost var k :| 0 <= k < |order| && order[k] == block;
      ghost var m := View();
      ListedAt(m, order, freeList, k);
      var next, prev := Load(block), Load(block + 4);
      if prev != 0 {
        assert order[k - 1] in order;
        Store(prev, next);
        if next != 0 {
          assert order[k + 1] in order;
          Store(next + 4, prev);
        }
      } else {
        freeList := next;
        if freeList != 0 {
          assert order[k + 1] in order;
          Store(freeList + 4, 0);
        }
      }
      Unlinked(m, View(), order, old(freeList), k);
      WithoutAt(order, k);
      WithoutElems(order, block);
      assert forall a :: a in Without(order, block) ==> a in Elems(order);
      order := order[..k] + order[k + 1..];
    }

    method AddToList(block: int)
      requires ListOk() && block !in order && block > 0 && block % 16 == 0 && In(block) && In(block + 4)
      modifies mem, this`freeList, this`order
      ensures ListOk() && order == [block] + old(order)
      ensures LinksOnly(old(View()), View(), [block] + old(order))
    {
      hide View, Listed, Distinct;
      ghost var m := View();
      FirstIn();
      Store(block, freeList);
      if freeList != 0 {
        Store(freeList + 4, block);
      }
      Store(block + 4, 0);
      Linked(m, View(), order, freeList, block);
      Push(order, block);
      freeList := block;
      order := [block] + order;
    }

    lemma FirstIn()
      requires ListOk()
      ensures freeList != 0 ==> freeList in order && freeList > 0
      ensures freeList % 16 == 0
    {
    }
  
    // ---- Reading the blocks ----

    function RealSize(size: int): int { size / 2 * 2 }

    predicate IsFree(block: int)
      requires Formed() && (block != 0 ==> In(block + 8))
      reads mem, vm`heapCurr, vm`Repr
    {
      block != 0 && Load(block + 8) % 2 == 1
    }

    function GetPrevBlock(block: int): int
      requires Formed() && (block != head ==> In(block - 4))
      reads this`head, mem, vm`heapCurr, vm`Repr
    {
      if block == head then 0 else block - OVERHEAD - RealSize(Load(block - 4))
    }

    function GetNextBlock(block: int): int
      requires Formed() && (block != tail ==> In(block + 8))
      reads this`tail, mem, vm`heapCurr, vm`Repr
    {
      if block == tail then 0 else block + OVERHEAD + RealSize(Load(block + 8))
    }

    /** What header and trailer of block i say. */
    lemma BlockIs(i: nat)
      requires Laid() && i < |blocks|
      ensures var b := blocks[i];
        && In(b.addr) && In(b.addr + 4) && In(b.addr + 8) && In(b.End() - 4)
        && Load(b.addr + 8) == b.Tag() && Load(b.End() - 4) == b.Tag()
        && b.Tag() / 2 * 2 == b.size && b.addr > 0
        && (IsFree(b.addr) <==> b.free)
    {
      hide KernelSpace.Valid, KernelSpace.Sound, KernelSpace.Covered, View, Tiled;
      Place(Tiling(), i);
    }

    /** Stepping through the heap finds the neighbours in the tiling. */
    lemma StepIs(i: nat)
      requires Valid() && i < |blocks|
      ensures var b := blocks[i];
        && (b.addr != head ==> In(b.addr - 4)) && In(b.addr + 8)
        && GetNextBlock(b.addr) == (if i + 1 < |blocks| then blocks[i + 1].addr else 0)
        && GetPrevBlock(b.addr) == (if i > 0 then blocks[i - 1].addr else 0)
    {
      hide KernelSpace.Valid, KernelSpace.Sound, KernelSpace.Covered, View, Load, Tiled, IsFree;
      Place(Tiling(), i);
      BlockIs(i);
      if i > 0 { BlockIs(i - 1); }
    }
  
    /** Wherever `tail` points, the steps in memory are those of the tiling, and asking for the free bit there reads a word of
        the heap exactly when the tiling says so. */
    lemma LookIs(i: nat)
      requires Laid() && i < |blocks|
      ensures var a, st := blocks[i].addr, Tiling();
        && In(a + 8) && (a != head ==> In(a - 4))
        && GetNextBlock(a) == NextOf(st, a) && GetPrevBlock(a) == PrevOf(st, a)
        && (NextOf(st, a) != 0 ==> (In(NextOf(st, a) + 8) <==> !LooksPast(st, NextOf(st, a))))
        && (PrevOf(st, a) != 0 ==> (In(PrevOf(st, a) + 8) <==> !LooksPast(st, PrevOf(st, a))))
    {
      hide KernelSpace.Valid, KernelSpace.Sound, KernelSpace.Covered, View, Load, IsFree, Tiled, Tags, Listed;
      Place(Tiling(), i);
      BlockIs(i);
      WordsAligned(blocks[i].addr);
      SixteenEnds(blocks[i]);
      WordsAligned(blocks[i].End());
      if i > 0 {
        BlockIs(i - 1);
        Place(Tiling(), i - 1);
      }
    }

    /** getPrevBlock and getNextBlock undo each other inside the heap. */
    lemma StepsInvert(i: nat)
      requires Valid() && i + 1 < |blocks|
      ensures var b, c := blocks[i].addr, blocks[i + 1].addr;
        && In(b + 8) && In(c - 4)
        && GetNextBlock(b) == c && GetPrevBlock(c) == b
        && GetPrevBlock(GetNextBlock(b)) == b && GetNextBlock(GetPrevBlock(c)) == c
    {
      hide KernelSpace.Valid, KernelSpace.Sound, KernelSpace.Covered, View, Load, Tiled, IsFree, GetPrevBlock, GetNextBlock;
      Place(Tiling(), i);
      Place(Tiling(), i + 1);
      BlockIs(i);
      BlockIs(i + 1);
      StepIs(i);
      StepIs(i + 1);
    }

    lemma ListIsOk()
      requires Laid()
      ensures ListOk() && Elems(order) == FreeAddrs(blocks) && Aligned(order)
      ensures forall a :: a in order ==> Has(blocks, a, true) && In(a + 8)
    {
      hide KernelSpace.Valid, KernelSpace.Sound, KernelSpace.Covered, View, Chain, Coalesced, FreeAddrs;
      forall a | a in order ensures In(a) && In(a + 4) && In(a + 8) && Has(blocks, a, true) {
        OrderIs(Tiling(), a);
        BlockIs(IndexOf(blocks, a));
      }
    }

    // ---- Writing the blocks ----

    /** Sets a block's size word and free bit, and copies both to its trailer. */
    method SetSize(block: int, size: int, free: bool)
      requires Formed() && In(block + 8) && In(block + HEADER + size)
      requires block % 16 == 0 && size % 16 == 0 && 0 <= size < ADDRESS_SPACE - 1
      modifies mem
      ensures View() == Tagged(old(View()), Block(block, size, free))
      ensures old(ListOk()) ==> ListOk()
    {
      hide View, Listed, Distinct;
      ghost var m := View();
      SizeArith(block, size);
      hide RealSize;
      Store(block + 8, size);
      Store(block + 8, RealSize(Load(block + 8)) + if free then 1 else 0);
      var trailing := block + HEADER + RealSize(Load(block + 8));
      Store(trailing, Load(block + 8));
      if ListIn(m) {
        TagsNoLinks(m, View(), block + 8, trailing);
      }
    }

    lemma SizeArith(block: int, size: int)
      requires block % 16 == 0 && size % 16 == 0
      ensures RealSize(size) == size && RealSize(size + 1) == size && RealSize(size + 0) == size
      ensures (block + 8) % 16 == 8 && (block + HEADER + size) % 16 == 12
    {
      var q := BySixteen(size);
      Doubled(size, 8 * q);
      OneMore(size, 8 * q);
      var r := BySixteen(block);
      Remainder(block + 8, r, 8);
      Remainder(block + HEADER + size, r + q, 12);
    }

    lemma OneMore(x: int, k: int)
      requires x == 2 * k
      ensures RealSize(x + 1) == x
    {
    }

    lemma Remainder(x: int, k: int, r: nat)
      requires x == 16 * k + r && r < 16
      ensures x % 16 == r
    {
    }

    ghost predicate ListIn(m: Image)
      reads this`order, this`freeList, vm`heapCurr, vm`Repr
    {
      && Formed() && Listed(m, order, freeList) && Distinct(order)
      && forall a :: a in order ==> In(a) && In(a + 4)
    }

    lemma TagsNoLinks(m: Image, m': Image, x: int, y: int)
      requires ListIn(m) && x % 16 == 8 && y % 16 == 12
      requires forall a :: a != x && a != y ==> At(m', a) == At(m, a)
      ensures ListIn(m')
    {
      hide Distinct;
      ListedFrame(m, m', order, freeList);
    }

    ghost predicate Done(st: State, m: Image, st': State, gone: set<Block>, new_: set<Block>)
      reads this, mem, vm, vm.Repr
    {
      Laid() && Tiling() == st' && Tiled(st') && Swapped(st, m, st', View(), gone, new_)
    }

    /** The blocks from lo to hi have been rewritten as mid: the heap is laid out as the new tiling says. */
    lemma Close(st: State, m: Image, lo: nat, hi: nat, mid: seq<Block>)
      requires Based() && Tiled(st) && Tags(m, st.blocks) && lo < hi <= |st.blocks|
      requires Tiled(Tiling()) && blocks == Splice(st.blocks, lo, hi, mid)
      requires Touches(m, View(), st.blocks[lo].addr, st.blocks[hi - 1].End(), FreeAddrs(st.blocks))
      requires Tags(View(), mid) && Listed(View(), order, freeList)
      requires head == base && mid != []
      ensures Done(st, m, Tiling(), Used(st.blocks[lo..hi]), Used(mid))
    {
      hide KernelSpace.Valid, KernelSpace.Sound, KernelSpace.Covered, View, Tiled, Listed, Touches;
      Settle(st, Tiling(), m, View(), lo, hi, mid);
    }
  
    /** Blocks lo to hi have become b: its tags were written, then the list was changed. */
    lemma CloseOne(st: State, m: Image, lo: nat, hi: nat, b: Block, links: seq<int>)
      requires Based() && Tiled(st) && Tags(m, st.blocks) && lo < hi <= |st.blocks|
      requires Tiled(Tiling()) && blocks == Splice(st.blocks, lo, hi, [b])
      requires b.addr == st.blocks[lo].addr && b.End() == st.blocks[hi - 1].End() && b.addr > 0
      requires b.addr % 16 == 0 && b.size % 16 == 0 && b.size >= 16
      requires LinksOnly(Tagged(m, b), View(), links)
      requires Aligned(st.order) && Elems(st.order) == FreeAddrs(st.blocks) && (links == st.order || links == [b.addr] + st.order)
      requires Listed(View(), order, freeList) && head == base
      ensures Done(st, m, Tiling(), Used(st.blocks[lo..hi]), UsedPart(b))
    {
      hide KernelSpace.Valid, KernelSpace.Sound, KernelSpace.Covered, View, Tiled, Tags, Listed;
      hide Touches, Linkable, Fits, Tagged, LinksOnly, Chain;
      OrderLinkable(st.order, b.addr, b.addr, b.End(), FreeAddrs(st.blocks));
      FitsIn(b, b.addr, b.End());
      OneThenLinks(m, View(), b, links, b.addr, b.End(), FreeAddrs(st.blocks));
      One(b);
      Close(st, m, lo, hi, [b]);
    }

    /** Blocks lo to hi have become the used block c and the free block d. */
    lemma CloseTwo(st: State, m: Image, lo: nat, hi: nat, c: Block, d: Block, links: seq<int>)
      requires Based() && Tiled(st) && Tags(m, st.blocks) && lo < hi <= |st.blocks|
      requires Tiled(Tiling()) && blocks == Splice(st.blocks, lo, hi, [c, d])
      requires c.addr == st.blocks[lo].addr && d.addr == c.End() && d.End() == st.blocks[hi - 1].End() && c.addr > 0
      requires c.addr % 16 == 0 && c.size % 16 == 0 && c.size >= 16 && d.addr % 16 == 0 && d.size % 16 == 0 && d.size >= 16
      requires !c.free && d.free
      requires LinksOnly(Tagged(Tagged(m, c), d), View(), links) && links == [d.addr] + st.order
      requires Aligned(st.order) && Elems(st.order) == FreeAddrs(st.blocks)
      requires Listed(View(), order, freeList) && head == base
      ensures Done(st, m, Tiling(), Used(st.blocks[lo..hi]), {c})
    {
      hide KernelSpace.Valid, KernelSpace.Sound, KernelSpace.Covered, View, Tiled, Tags, Listed;
      hide Touches, Linkable, Fits, Tagged, LinksOnly, Chain;
      OrderLinkable(st.order, d.addr, c.addr, d.End(), FreeAddrs(st.blocks));
      FitsIn(c, c.addr, d.End());
      FitsIn(d, c.addr, d.End());
      TwoThenLinks(m, View(), c, d, links, c.addr, d.End(), FreeAddrs(st.blocks));
      One(c);
      One(d);
      Two(c, d);
      assert Used([c, d]) == {c};
      Close(st, m, lo, hi, [c, d]);
    }

    // ---- free ----

    /** The facts that the writing code needs about block i. */
    lemma PlaceOf(i: nat)
      requires Laid() && i < |blocks|
      ensures var b := blocks[i];
        && In(b.addr) && In(b.addr + 4) && In(b.addr + 8) && In(b.End() - 4)
        && Load(b.addr + 8) == b.Tag() && RealSize(b.Tag()) == b.size && b.addr > 0 && b.addr % 16 == 0
        && b.size % 16 == 0 && b.size >= 16 && base <= b.addr && b.End() <= vm.heapCurr && b.End() % 16 == 0
        && Based() && Formed() && Tiled(Tiling()) && Tags(View(), blocks) && head == base
        && ListOk() && (b.free <==> b.addr in order) && IndexOf(blocks, b.addr) == i
        && (i + 1 < |blocks| ==> b.End() == blocks[i + 1].addr)
        && (i > 0 ==> blocks[i - 1].End() == b.addr)
        && Aligned(order) && Elems(order) == FreeAddrs(blocks)
    {
      hide KernelSpace.Valid, KernelSpace.Sound, KernelSpace.Covered, KernelSpace.HeapMapped, View, Tiled, Tags, Listed;
      hide Load, In, ListOk, Elems, FreeAddrs, Aligned;
      Place(Tiling(), i);
      SixteenEnds(blocks[i]);
      BlockIs(i);
      ListIsOk();
    }
  
    method FreeAlone(curr: int, ghost i: nat)
      requires Valid() && i < |blocks| && blocks[i].addr == curr && !blocks[i].free && Has(blocks, curr, false)
      requires !PrevFree(Tiling(), i) && !NextFree(Tiling(), i)
      modifies this, mem
      ensures Valid() && Done(old(Tiling()), old(View()), Release(old(Tiling()), curr), {old(blocks)[i]}, {})
    {
      hide KernelSpace.Valid, KernelSpace.Sound, KernelSpace.Covered, KernelSpace.HeapMapped, In, View, Load, RealSize;
      hide Tiled, Tags, Listed, FreeAddrs, Used, Touches, LinksOnly, Linkable, Fits, Tagged, Swapped, Aligned, Elems;
      hide Laid, Based, Release, IndexOf, Without, Distinct;
      PlaceOf(i);
      ghost var st, m := Tiling(), View();
      ghost var b := Block(curr, blocks[i].size, true);
      SetSize(curr, RealSize(Load(curr + 8)), true);
      AddToList(curr);
      ReleaseKeeps(st, curr);
      ReleaseIs(st, curr);
      blocks := st.blocks[..i] + [b] + st.blocks[i + 1..];
      Single(st.blocks, i);
      CloseOne(st, m, i, i + 1, b, order);
    }

    /** The left neighbour takes in the block. */
    method FreePrev(prev: int, curr: int, ghost i: nat)
      requires Valid() && 0 < i < |blocks| && blocks[i].addr == curr && !blocks[i].free && Has(blocks, curr, false)
      requires PrevFree(Tiling(), i) && !NextFree(Tiling(), i) && prev == blocks[i - 1].addr
      modifies this, mem
      ensures Valid() && Done(old(Tiling()), old(View()), Release(old(Tiling()), curr), {old(blocks)[i]}, {})
    {
      hide KernelSpace.Valid, KernelSpace.Sound, KernelSpace.Covered, KernelSpace.HeapMapped, In, View, Load, RealSize;
      hide Tiled, Tags, Listed, FreeAddrs, Used, Touches, LinksOnly, Linkable, Fits, Tagged, Swapped, Aligned, Elems;
      hide Laid, Based, Release, IndexOf, Without, Distinct;
      PlaceOf(i);
      ghost var st, m := Tiling(), View();
      PlaceOf(i - 1);
      ghost var b := Block(prev, blocks[i - 1].size + OVERHEAD + blocks[i].size, true);
      Join(blocks[i - 1], blocks[i], true);
      SetSize(prev, RealSize(Load(prev + 8)) + OVERHEAD + RealSize(Load(curr + 8)), true);
      if tail == curr {
        tail := prev;
      }
      ReleaseKeeps(st, curr);
      ReleaseIs(st, curr);
      blocks := st.blocks[..i - 1] + [b] + st.blocks[i + 1..];
      Pair(st.blocks, i - 1);
      assert Used(st.blocks[i - 1..i + 1]) == {st.blocks[i]};
      NoLinksOf(View(), order);
      CloseOne(st, m, i - 1, i + 1, b, order);
    }

    /** The block takes in its right neighbour. */
    method FreeNext(curr: int, next: int, ghost i: nat)
      requires Valid() && i + 1 < |blocks| && blocks[i].addr == curr && !blocks[i].free && Has(blocks, curr, false)
      requires !PrevFree(Tiling(), i) && NextFree(Tiling(), i) && next == blocks[i + 1].addr
      modifies this, mem
      ensures Valid() && Done(old(Tiling()), old(View()), Release(old(Tiling()), curr), {old(blocks)[i]}, {})
    {
      hide KernelSpace.Valid, KernelSpace.Sound, KernelSpace.Covered, KernelSpace.HeapMapped, In, View, Load, RealSize;
      hide Tiled, Tags, Listed, FreeAddrs, Used, Touches, LinksOnly, Linkable, Fits, Tagged, Swapped, Aligned, Elems;
      hide Laid, Based, Release, IndexOf, Without, Distinct;
      PlaceOf(i);
      ghost var st, m := Tiling(), View();
      PlaceOf(i + 1);
      ghost var b := Block(curr, blocks[i].size + OVERHEAD + blocks[i + 1].size, true);
      Join(blocks[i], blocks[i + 1], true);
      SetSize(curr, RealSize(Load(curr + 8)) + OVERHEAD + RealSize(Load(next + 8)), true);
      if tail == next {
        tail := curr;
      }
      ghost var m1 := View();
      RemoveFromList(next);
      ghost var m2 := View();
      NotInRest(st.order, next, curr);
      AddToList(curr);
      ReleaseKeeps(st, curr);
      ReleaseIs(st, curr);
      blocks := st.blocks[..i] + [b] + st.blocks[i + 2..];
      Pair(st.blocks, i);
      assert Used(st.blocks[i..i + 2]) == {st.blocks[i]};
      LinksTwice(m1, m2, View(), st.order, order, [curr] + st.order);
      CloseOne(st, m, i, i + 2, b, [curr] + st.order);
    }

    /** The left neighbour takes in the block and the right neighbour. */
    method FreeBoth(prev: int, curr: int, next: int, ghost i: nat)
      requires Valid() && 0 < i < |blocks| - 1 && blocks[i].addr == curr && !blocks[i].free && Has(blocks, curr, false)
      requires PrevFree(Tiling(), i) && NextFree(Tiling(), i) && prev == blocks[i - 1].addr && next == blocks[i + 1].addr
      modifies this, mem
      ensures Valid() && Done(old(Tiling()), old(View()), Release(old(Tiling()), curr), {old(blocks)[i]}, {})
    {
      hide KernelSpace.Valid, KernelSpace.Sound, KernelSpace.Covered, KernelSpace.HeapMapped, In, View, Load, RealSize;
      hide Tiled, Tags, Listed, FreeAddrs, Used, Touches, LinksOnly, Linkable, Fits, Tagged, Swapped, Aligned, Elems;
      hide Laid, Based, Release, IndexOf, Without, Distinct;
      PlaceOf(i);
      ghost var st, m := Tiling(), View();
      PlaceOf(i - 1);
      PlaceOf(i + 1);
      ghost var b := Block(prev, blocks[i - 1].size + 2 * OVERHEAD + blocks[i].size + blocks[i + 1].size, true);
      Join(blocks[i - 1], blocks[i], true);
      Join(Block(prev, blocks[i - 1].size + OVERHEAD + blocks[i].size, true), blocks[i + 1], true);
      SetSize(prev, RealSize(Load(prev + 8)) + 2 * OVERHEAD + RealSize(Load(curr + 8)) + RealSize(Load(next + 8)), true);
      if tail == next {
        tail := prev;
      }
      RemoveFromList(next);
      ReleaseKeeps(st, curr);
      ReleaseIs(st, curr);
      blocks := st.blocks[..i - 1] + [b] + st.blocks[i + 2..];
      Triple(st.blocks, i - 1);
      assert Used(st.blocks[i - 1..i + 2]) == {st.blocks[i]};
      CloseOne(st, m, i - 1, i + 2, b, st.order);
    }
  
    /** The pointers in use, with the bytes behind them. */
    ghost function LiveMap(): map<int, seq<int>>
      requires Formed()
      reads this`blocks, mem, vm`heapCurr, vm`Repr
    {
      Live(View(), blocks)
    }

    /** Frees a live pointer: its block joins the free blocks beside it, and no other live byte changes. */
    method Free(ptr: int)
      requires Valid() && Has(blocks, ptr - HEADER, false)
      modifies this, mem
      ensures Valid() && Tiling() == Release(old(Tiling()), ptr - HEADER)
      ensures Effect(Dispose(ptr), Null, old(LiveMap()), LiveMap())
      ensures Swapped(old(Tiling()), old(View()), Tiling(), View(), {old(blocks)[IndexOf(old(blocks), ptr - HEADER)]}, {})
    {
      hide KernelSpace.Valid, KernelSpace.Sound, KernelSpace.Covered, KernelSpace.HeapMapped, In, View, Load, RealSize;
      hide Tiled, Tags, Listed, FreeAddrs, Used, Touches, LinksOnly, Linkable, Fits, Tagged, Swapped, Aligned, Elems;
      hide Laid, Based, IndexOf, Without, Distinct;
      hide Release, Live;
      var curr := ptr - HEADER;
      ghost var i := IndexOf(blocks, curr);
      PlaceOf(i);
      StepIs(i);
      SidesAre(i);
      ghost var st, m := Tiling(), View();
      var prev := GetPrevBlock(curr);
      var next := GetNextBlock(curr);
      if IsFree(prev) && IsFree(next) {
        FreeBoth(prev, curr, next, i);
      } else if IsFree(prev) {
        FreePrev(prev, curr, i);
      } else if IsFree(next) {
        FreeNext(curr, next, i);
      } else {
        FreeAlone(curr, i);
      }
      LiveDrop(st, Tiling(), m, View(), st.blocks[i]);
    }

    /** Looking at the free bits of its neighbours, block i sees what the tiling says. */
    lemma SidesAre(i: nat)
      requires Valid() && i < |blocks|
      ensures Tiled(Tiling()) && blocks[i].addr > 0
      ensures i > 0 ==> blocks[i - 1].addr > 0 && In(blocks[i - 1].addr + 8)
      ensures i + 1 < |blocks| ==> blocks[i + 1].addr > 0 && In(blocks[i + 1].addr + 8)
      ensures PrevFree(Tiling(), i) <==> i > 0 && IsFree(blocks[i - 1].addr)
      ensures NextFree(Tiling(), i) <==> i + 1 < |blocks| && IsFree(blocks[i + 1].addr)
      ensures (blocks[i].addr == head <==> i == 0) && (blocks[i].addr == tail <==> i + 1 == |blocks|)
    {
      hide KernelSpace.Valid, KernelSpace.Sound, KernelSpace.Covered, KernelSpace.HeapMapped, View, Tiled, Tags, Listed, Load, In;
      NextFreeMeans(Tiling(), i);
      Place(Tiling(), i);
      BlockIs(i);
      if i > 0 { BlockIs(i - 1); }
      if i + 1 < |blocks| { BlockIs(i + 1); }
    }
  
    // ---- malloc ----

    /** The size word of a listed block. */
    lemma ListedSize(k: nat)
      requires Laid() && k < |order|
      ensures var c := order[k];
        && Formed() && In(c) && In(c + 8) && c > 0
        && Load(c + 8) == SizeAt(blocks, c) + 1 && SizeAt(blocks, c) % 16 == 0 && SizeAt(blocks, c) >= 16
        && Load(c) == After(order, k) && (After(order, k) == 0 <==> k + 1 == |order|)
    {
      hide KernelSpace.Valid, KernelSpace.Sound, KernelSpace.Covered, KernelSpace.HeapMapped, View, Tiled, Tags;
      ListIsOk();
      OrderIs(Tiling(), order[k]);
      BlockIs(IndexOf(blocks, order[k]));
      Place(Tiling(), IndexOf(blocks, order[k]));
      ListedAt(View(), order, freeList, k);
    }

    predicate DoesItFit(block: int, size: int)
      requires Formed() && In(block + 8) && block > 0
      reads mem, vm`heapCurr, vm`Repr
    {
      Load(block + 8) >= RealSize(size) && IsFree(block)
    }

    lemma FitIs(k: nat, size: int)
      requires Laid() && k < |order| && size % 16 == 0
      ensures Formed() && In(order[k]) && In(order[k] + 8) && order[k] > 0
      ensures DoesItFit(order[k], size) <==> SizeAt(blocks, order[k]) >= size
    {
      hide Based, View, Tiled, Tags, Listed, SizeAt, Load, In, RealSize;
      ListedSize(k);
      SizeIs(size, Load(order[k] + 8));
    }

    lemma SizeIs(size: int, word: int)
      requires size % 16 == 0 && (word - 1) % 16 == 0
      ensures RealSize(size) == size && word % 2 == 1 && (word >= size <==> word - 1 >= size)
    {
      var q := BySixteen(size);
      var r := BySixteen(word - 1);
      Doubled(size, 8 * q);
      Doubled(word - 1, 8 * r);
      OddApart(q, r);
    }

    lemma OddApart(q: int, r: int)
      ensures 16 * r + 1 != 16 * q
    {
    }

    lemma Doubled(x: int, k: int)
      requires x == 2 * k
      ensures RealSize(x) == x && (x + 1) % 2 == 1
    {
    }

    /** Walks the free list to the first smallest block of at least `size` bytes. */
    method BestFit(size: int) returns (best: int)
      requires Laid() && size > 0 && size % 16 == 0
      ensures best == Best(blocks, order, size)
    {
      hide Based, View, Tiled, Tags, Load, In, Listed, SizeAt, DoesItFit, RealSize, IsFree, Best;
      best := 0;
      NoBest(blocks, size);
      var curr := freeList;
      ghost var k := 0;
      FreeListIs();
      while curr != 0
        invariant 0 <= k <= |order| && curr == (if k < |order| then order[k] else 0)
        invariant best == Best(blocks, order[..k], size)
        invariant best == 0 || exists j :: 0 <= j < k && order[j] == best
        decreases |order| - k
      {
        ListedSize(k);
        FitIs(k, size);
        if DoesItFit(curr, size) {
          if best != 0 {
            ghost var j :| 0 <= j < k && order[j] == best;
            ListedSize(j);
          }
          if best == 0 || Load(curr + 8) < Load(best + 8) {
            best := curr;
          }
        }
        BestStep(blocks, order, k, size);
        curr := Load(curr);
        k := k + 1;
      }
      assert order[..k] == order;
    }

    lemma FreeListIs()
      requires Laid()
      ensures freeList == (if order == [] then 0 else order[0])
      ensures forall k :: 0 <= k < |order| ==> order[k] != 0
    {
      forall k | 0 <= k < |order| ensures order[k] != 0 {
        assert order[k] in order;
      }
    }
  
    /** The free block `best` is used as it is. */
    method TakeAll(best: int, ghost i: nat, ghost need: int)
      requires Valid() && i < |blocks| && blocks[i].addr == best && blocks[i].free && Has(blocks, best, true)
      requires 16 <= need <= blocks[i].size < need + SPLIT_MIN
      modifies this, mem
      ensures Valid()
      ensures Done(old(Tiling()), old(View()), Take(old(Tiling()), best, need), {}, {Block(best, old(blocks)[i].size, false)})
    {
      hide KernelSpace.Valid, KernelSpace.Sound, KernelSpace.Covered, KernelSpace.HeapMapped, In, View, Load, RealSize;
      hide Tiled, Tags, Listed, FreeAddrs, Used, Touches, LinksOnly, Linkable, Fits, Tagged, Swapped, Aligned, Elems;
      hide Laid, Based, IndexOf, Without, Distinct;
      PlaceOf(i);
      ghost var st, m := Tiling(), View();
      ghost var b := Block(best, blocks[i].size, false);
      SetSize(best, RealSize(Load(best + 8)), false);
      RemoveFromList(best);
      TakeWhole(st, best, need);
      blocks := st.blocks[..i] + [b] + st.blocks[i + 1..];
      Single(st.blocks, i);
      CloseOne(st, m, i, i + 1, b, st.order);
    }

    /** The free block `best` is cut; its end goes back to the free list. */
    method TakeFront(best: int, need: int, ghost i: nat)
      requires Valid() && i < |blocks| && blocks[i].addr == best && blocks[i].free && Has(blocks, best, true)
      requires 16 <= need && need % 16 == 0 && need + SPLIT_MIN <= blocks[i].size
      modifies this, mem
      ensures Valid()
      ensures Done(old(Tiling()), old(View()), Take(old(Tiling()), best, need), {}, {Block(best, need, false)})
    {
      hide KernelSpace.Valid, KernelSpace.Sound, KernelSpace.Covered, KernelSpace.HeapMapped, In, View, Load, RealSize;
      hide Tiled, Tags, Listed, FreeAddrs, Used, Touches, LinksOnly, Linkable, Fits, Tagged, Swapped, Aligned, Elems;
      hide Laid, Based, IndexOf, Without, Distinct;
      PlaceOf(i);
      ghost var st, m := Tiling(), View();
      var rest := RealSize(Load(best + 8)) + OVERHEAD - (need + OVERHEAD);
      var ptr := best + need + OVERHEAD;
      ghost var c, d := Block(best, need, false), Block(ptr, rest - OVERHEAD, true);
      Cut(blocks[i], need);
      InsideIn(i, ptr);
      SetSize(best, need, false);
      ghost var m1 := View();
      SetSize(ptr, rest - OVERHEAD, true);
      ghost var m2 := View();
      if best == tail {
        tail := ptr;
      }
      FreshAddr(st, i, ptr);
      AddToList(ptr);
      ghost var m3 := View();
      RemoveFromList(best);
      TakePart(st, best, need);
      AfterPush(st.order, ptr, best);
      blocks := st.blocks[..i] + [c, d] + st.blocks[i + 1..];
      Single(st.blocks, i);
      LinksTwice(m2, m3, View(), [ptr] + st.order, [ptr] + st.order, [ptr] + st.order);
      CloseTwo(st, m, i, i + 1, c, d, [ptr] + st.order);
    }

    /** The words of a split-off block lie below the break. */
    lemma InsideIn(i: nat, ptr: int)
      requires Laid() && i < |blocks| && ptr % 16 == 0 && blocks[i].addr < ptr && ptr + OVERHEAD <= blocks[i].End()
      ensures In(ptr) && In(ptr + 4) && In(ptr + 8) && In(ptr - 4)
    {
      hide KernelSpace.Valid, KernelSpace.Sound, KernelSpace.Covered, View, Tiled, Tags, Listed;
      WordsAligned(ptr);
      assert base + 16 <= ptr && blocks[i].End() <= vm.heapCurr by {
        Place(Tiling(), i);
        SixteenApart(blocks[i].addr, ptr);
      }
    }

    /** Enough pages and frames, and no address past 2^32, for a heap that grows by one block. */
    ghost predicate Backed(size: int)
      reads vm`heapCurr, vm`heapEnd, vm`heapMax, vm.pmm.bitmap
    {
      var top := vm.heapCurr + Rounded(size) + OVERHEAD;
      top < ADDRESS_SPACE && (top <= vm.heapMax ==> top <= vm.Room())
    }

    /** ksbrk, seen from the heap. */
    method Sbrk(size: nat) returns (ret: int)
      requires Based() && size >= 16
      requires var top := vm.heapCurr + size;
        top < ADDRESS_SPACE && (top <= vm.heapMax ==> top <= vm.Room())
      modifies vm, vm.Repr
      ensures Based() && Formed() && View() == old(View()) && vm.heapMax == old(vm.heapMax) && vm.Grew(old(vm.Held())) && fresh(vm.Repr - old(vm.Repr))
      ensures var top := old(vm.heapCurr) + size;
        if top <= old(vm.heapEnd) || top <= vm.heapMax then
          && ret == old(vm.heapCurr) > 0 && vm.heapCurr == top
          && vm.heapEnd == if top <= old(vm.heapEnd) then old(vm.heapEnd) else PageUp(top)
        else ret == 0 && vm.heapCurr == old(vm.heapCurr) && vm.heapEnd == old(vm.heapEnd)
    {
      hide KernelSpace.Valid, KernelSpace.Sound, KernelSpace.Covered, KernelSpace.Held, KernelSpace.Grew, KernelSpace.Room;
      hide Listed, Distinct, View;
      ret := vm.Ksbrk(size);
      PageUpMonotone(old(vm.heapCurr) + size, vm.heapMax);
    }

    /** The words of the heap are no part of what paging keeps. */
    lemma Elsewhere()
      requires Laid()
      ensures mem as object != vm.dir && mem as object != vm.pmm.bitmap
    {
      hide KernelSpace.Sound, KernelSpace.Covered, View, Tiled, Tags, Listed;
    }

    lemma PageUpMonotone(a: int, b: int)
      ensures a <= b ==> PageUp(a) <= PageUp(b)
    {
    }

    /** Takes a new block from the break; the kernel panics when there is none. */
    method GrowHeap(need: int) returns (r: Outcome)
      requires Valid() && 16 <= need && need % 16 == 0 && Backed(need)
      modifies this, mem, vm, vm.Repr
      ensures Valid() && vm.Grew(old(vm.Held())) && fresh(vm.Repr - old(vm.Repr))
      ensures if CanGrow(old(Tiling()), need) then
          && r == Pointer(old(vm.heapCurr) + HEADER)
          && Done(old(Tiling()), old(View()), Grow(old(Tiling()), need), {}, {Block(old(vm.heapCurr), need, false)})
        else r == Panic && Tiling() == old(Tiling()) && View() == old(View())
    {
      hide KernelSpace.Valid, KernelSpace.Sound, KernelSpace.Covered, KernelSpace.HeapMapped, View, Load, RealSize, Based;
      hide KernelSpace.Held, KernelSpace.Grew, KernelSpace.Room;
      hide Tiled, Tags, Listed, FreeAddrs, Used, Tagged, Swapped, Distinct, PageUp, LastAddr, Laid, In, ListOk;
      Opened();
      Elsewhere();
      ghost var st, m, brk := Tiling(), View(), vm.heapCurr;
      ExactRounding(need);
      ListBelow();
      var ret := Sbrk(need + OVERHEAD);
      ListAbove(brk);
      if ret == 0 {
        Reopen();
        return Panic;
      }
      ghost var b := Block(ret, need, false);
      NewWords(b);
      if head == 0 {
        head := ret;
      }
      tail := ret;
      SetSize(ret, need, false);
      GrowKeeps(st, need);
      blocks := st.blocks + [b];
      CloseGrow(st, m, b);
      return Pointer(ret + HEADER);
    }

    ghost predicate Below(brk: int)
      reads this`order, this`freeList, mem
    {
      && base % 4 == 0 && Listed(View(), order, freeList) && Distinct(order)
      && forall a :: a in order ==> base <= a && a + 8 <= brk && a % 4 == 0
    }

    lemma ListBelow()
      requires ListOk()
      ensures Below(vm.heapCurr)
    {
      hide View, Listed, Distinct;
      forall a | a in order ensures base <= a && a + 8 <= vm.heapCurr && a % 4 == 0 {
        assert In(a) && In(a + 4);
      }
    }

    lemma ListAbove(brk: int)
      requires Formed() && Below(brk) && brk <= vm.heapCurr
      ensures ListOk()
    {
      hide View, Listed, Distinct;
      forall a | a in order ensures In(a) && In(a + 4) {
        FourDivides(a + 4, a / 4 + 1);
      }
    }

    lemma NewWords(b: Block)
      requires Formed() && base <= b.addr && b.addr % 16 == 0 && b.size % 16 == 0 && b.size >= 16 && b.End() <= vm.heapCurr
      ensures In(b.addr + 8) && In(b.addr + HEADER + b.size) && b.size < ADDRESS_SPACE - 1
    {
      FourOf(b, 0);
      assert (b.addr + HEADER + b.size) % 4 == 0;
    }

    lemma Reopen()
      requires Based() && Tiled(Tiling()) && Tags(View(), blocks) && ListOk() && head == (if blocks == [] then 0 else base)
      ensures Laid()
    {
      hide KernelSpace.Valid, KernelSpace.Sound, KernelSpace.Covered, View, Tags, Listed, Tiled;
    }

    /** A block has been written at the old break. */
    lemma CloseGrow(st: State, m: Image, b: Block)
      requires Based() && Tiled(st) && Tags(m, st.blocks) && b.addr == st.brk && b.size >= 16 && !b.free
      requires Tiled(Tiling()) && blocks == st.blocks + [b] && View() == Tagged(m, b) && ListOk() && head == base
      ensures Done(st, m, Tiling(), {}, {b})
    {
      hide KernelSpace.Valid, KernelSpace.Sound, KernelSpace.Covered, View, Tags, Listed, Tiled, Tagged, Swapped;
      GrownTags(st, Tiling(), m, b);
      Reopen();
    }

    lemma ExactRounding(need: int)
      requires need % 16 == 0
      ensures Rounded(need) == need
    {
    }

    lemma Opened()
      requires Laid()
      ensures Based() && Formed() && Tiled(Tiling()) && Tags(View(), blocks) && ListOk()
      ensures base > 0 && head == (if blocks == [] then 0 else base) && vm.heapCurr % 16 == 0
      ensures blocks == [] ==> vm.heapCurr == base
    {
      hide KernelSpace.Valid, KernelSpace.Sound, KernelSpace.Covered, View, Tags, Listed;
      ListIsOk();
      ChainWithin(blocks, base, vm.heapCurr);
    }
  
    /** The branch of malloc that has found a free block. */
    method TakeBlock(best: int, need: int)
      requires Valid() && Has(blocks, best, true) && 16 <= need <= SizeAt(blocks, best) && need % 16 == 0
      modifies this, mem
      ensures Valid()
      ensures Done(old(Tiling()), old(View()), Take(old(Tiling()), best, need), {},
                   {Block(best, Granted(SizeAt(old(blocks), best), need), false)})
    {
      hide KernelSpace.Valid, KernelSpace.Sound, KernelSpace.Covered, KernelSpace.HeapMapped, View, Load, RealSize, Based, In;
      hide Tiled, Tags, Listed, Take, IndexOf, Laid, GetNextBlock, IsFree, Done;
      ghost var i := IndexOf(blocks, best);
      PlaceOf(i);
      StepIs(i);
      SidesAre(i);
      NoFreeNeighbour(i);
      var saveNextBlock := GetNextBlock(best);
      var rest := RealSize(Load(best + 8)) + OVERHEAD - (need + OVERHEAD);
      if rest < SPLIT_MIN {
        TakeAll(best, i, need);
      } else if best != tail && IsFree(saveNextBlock) {
        // The right neighbour of a free block is never free: the code that merges the rest with it is dead.
        assert false;
      } else {
        TakeFront(best, need, i);
      }
    }

    lemma NoFreeNeighbour(i: nat)
      requires Laid() && i < |blocks| && blocks[i].free
      ensures !NextFree(Tiling(), i)
    {
      hide KernelSpace.Valid, KernelSpace.Sound, KernelSpace.Covered, View, Tags, Listed, Chain;
      JoinsAt(blocks, i);
    }

    /** Allocates at least `size` bytes in the first smallest free block that is large enough, or at the
        break. Every other live byte stays as it is. */
    method Malloc(size: int) returns (r: Outcome)
      requires Valid() && 0 <= size <= MAX_REQUEST && (Extends(Tiling(), size) ==> Backed(size))
      modifies this, mem, vm, vm.Repr
      ensures Valid() && (Tiling(), r) == HeapModel.Malloc(old(Tiling()), size)
      ensures vm.Grew(old(vm.Held())) && fresh(vm.Repr - old(vm.Repr))
      ensures r.Pointer? ==> Swapped(old(Tiling()), old(View()), Tiling(), View(), {}, {NewBlock(old(Tiling()), size)})
      ensures Effect(Alloc(size), r, old(LiveMap()), LiveMap())
    {
      hide KernelSpace.Valid, KernelSpace.Sound, KernelSpace.Covered, KernelSpace.HeapMapped, View, Based, In;
      hide Tiled, Tags, Listed, FreeAddrs, Used, Swapped, Distinct, PageUp, LastAddr, Live, Take, Grow, Best, IndexOf;
      hide KernelSpace.Held, KernelSpace.Grew, KernelSpace.Room;
      vm.GrewNothing();
      Elsewhere();
      if size == 0 {
        return Null;
      }
      Opened();
      ghost var st, m := Tiling(), View();
      var need := (size + 15) / 16 * 16;
      RoundedIs(size);
      MallocKeeps(st, size);
      TakesWhenFits(st, need);
      var best := BestFit(need);
      if best != 0 {
        TakeBlock(best, need);
        r := Pointer(best + HEADER);
      } else {
        ExactRounding(need);
        r := GrowHeap(need);
      }
      if r.Pointer? {
        NewPointer(st, m, NewBlock(st, size), size);
      }
    }

    /** Block c, and nothing else, has been handed out. */
    lemma NewPointer(st: State, m: Image, c: Block, size: int)
      requires Laid() && Tiled(st) && Swapped(st, m, Tiling(), View(), {}, {c}) && Adds(st, Tiling(), c, size)
      ensures var p := c.addr + HEADER;
        && p !in Live(m, st.blocks) && p in LiveMap() && 4 * |LiveMap()[p]| >= size
        && LiveMap() == Live(m, st.blocks)[p := LiveMap()[p]]
    {
      hide KernelSpace.Valid, KernelSpace.Sound, KernelSpace.Covered, View, Live, Tiled, Tags, Listed, Swapped, Adds;
      LiveAdds(st, Tiling(), m, View(), c, size);
    }

    // ---- realloc ----

    /** Copies word by word from low to high addresses, so the target may overlap the source from below. */
    method Memcpy(dst: int, src: int, n: int)
      requires Formed() && n >= 0 && n % 4 == 0 && dst % 4 == 0 && src % 4 == 0
      requires base <= dst && base <= src && dst + n <= vm.heapCurr && src + n <= vm.heapCurr
      requires dst <= src || src + n <= dst
      modifies mem
      ensures Copied(old(View()), View(), dst, src, n)
    {
      hide View, Copied, At, In;
      ghost var m := View();
      CopyNone(m, dst, src);
      var k := 0;
      while k < n
        invariant 0 <= k <= n && k % 4 == 0
        invariant Copied(m, View(), dst, src, k)
      {
        WordsIn(dst, k, n);
        WordsIn(src, k, n);
        CopySource(m, View(), dst, src, k, n);
        var word := Load(src + k);
        ghost var m1 := View();
        Store(dst + k, word);
        CopyOne(m, m1, dst, src, k);
        NextWord(k, n);
        k := k + 4;
      }
    }

    lemma NextWord(k: int, n: int)
      requires k % 4 == 0 && n % 4 == 0 && k < n
      ensures (k + 4) % 4 == 0 && k + 4 <= n
    {
    }

    lemma WordsIn(p: int, k: int, n: int)
      requires base <= p && p + n <= vm.heapCurr && p % 4 == 0 && k % 4 == 0 && n % 4 == 0 && 0 <= k < n
      ensures In(p + k)
    {
    }
  
    /** The block grows over its free right neighbour. */
    method GrowIntoNext(nptr: int, next: int, ghost i: nat)
      requires Valid() && i + 1 < |blocks| && blocks[i].addr == nptr && !blocks[i].free && Has(blocks, nptr, false)
      requires NextFree(Tiling(), i) && next == blocks[i + 1].addr
      modifies this, mem
      ensures Valid()
      ensures Done(old(Tiling()), old(View()), AbsorbNext(old(Tiling()), i), {old(blocks)[i]},
                   {Block(nptr, old(blocks)[i].size + OVERHEAD + old(blocks)[i + 1].size, false)})
      ensures Bytes(View(), nptr + HEADER, old(blocks)[i].size) == Payload(old(View()), old(blocks)[i])
    {
      hide KernelSpace.Valid, KernelSpace.Sound, KernelSpace.Covered, KernelSpace.HeapMapped, In, View, Load, RealSize;
      hide Tiled, Tags, Listed, FreeAddrs, Used, Touches, LinksOnly, Linkable, Fits, Tagged, Swapped, Aligned, Elems;
      hide Laid, Based, IndexOf, Without, Distinct;
      hide Bytes;
      PlaceOf(i);
      PlaceOf(i + 1);
      ghost var st, m := Tiling(), View();
      ghost var b := Block(nptr, blocks[i].size + OVERHEAD + blocks[i + 1].size, false);
      Join(blocks[i], blocks[i + 1], false);
      RemoveFromList(next);
      ghost var m1 := View();
      StaysTagged(m, m1, st.blocks, i, st.order);
      StaysTagged(m, m1, st.blocks, i + 1, st.order);
      SetSize(nptr, RealSize(Load(nptr + 8)) + OVERHEAD + RealSize(Load(next + 8)), false);
      if tail == next {
        tail := nptr;
      }
      AbsorbNextKeeps(st, nptr);
      blocks := st.blocks[..i] + [b] + st.blocks[i + 2..];
      Pair(st.blocks, i);
      assert Used(st.blocks[i..i + 2]) == {st.blocks[i]};
      TagCommutes(m, m1, b, st.order);
      CloseOne(st, m, i, i + 2, b, st.order);
      TaggedAround(m, b, nptr + HEADER, st.blocks[i].End() - 4);
      LinksFree(st.order, FreeAddrs(st.blocks));
      KeptBytes(st, m, Tagged(m, b), View(), i, st.blocks[i].size, st.order);
    }

    /** The size words that grow over a block leave its payload alone. */
    lemma KeptBytes(st: State, m: Image, m1: Image, m': Image, i: nat, k: int, links: seq<int>)
      requires Tiled(st) && i < |st.blocks| && !st.blocks[i].free && 0 <= k <= st.blocks[i].size
      requires forall a :: st.blocks[i].addr + HEADER <= a < st.blocks[i].addr + HEADER + k ==> At(m1, a) == At(m, a)
      requires LinksOnly(m1, m', links)
      requires forall x :: x in links ==> x in FreeAddrs(st.blocks) || st.blocks[i].addr + HEADER + k <= x
      ensures Bytes(m', st.blocks[i].addr + HEADER, k) == Bytes(m, st.blocks[i].addr + HEADER, k)
    {
      assert st.blocks[i] in Used(st.blocks);
      PrefixKept(st, m, m1, m', st.blocks[i], k, links);
    }
  
    /** The block grows over its free left neighbour; its bytes are still where they were. */
    method GrowIntoPrev(prev: int, nptr: int, ghost i: nat)
      requires Valid() && 0 < i < |blocks| && blocks[i].addr == nptr && !blocks[i].free && Has(blocks, nptr, false)
      requires PrevFree(Tiling(), i) && prev == blocks[i - 1].addr
      modifies this, mem
      ensures Valid()
      ensures Done(old(Tiling()), old(View()), AbsorbPrev(old(Tiling()), i), {old(blocks)[i]},
                   {Block(prev, old(blocks)[i].size + OVERHEAD + old(blocks)[i - 1].size, false)})
      ensures Bytes(View(), nptr + HEADER, old(blocks)[i].size) == Payload(old(View()), old(blocks)[i])
    {
      hide KernelSpace.Valid, KernelSpace.Sound, KernelSpace.Covered, KernelSpace.HeapMapped, In, View, Load, RealSize;
      hide Tiled, Tags, Listed, FreeAddrs, Used, Touches, LinksOnly, Linkable, Fits, Tagged, Swapped, Aligned, Elems;
      hide Laid, Based, IndexOf, Without, Distinct;
      hide Bytes;
      PlaceOf(i);
      PlaceOf(i - 1);
      ghost var st, m := Tiling(), View();
      var originalSize := RealSize(Load(nptr + 8));
      ghost var b := Block(prev, blocks[i].size + OVERHEAD + blocks[i - 1].size, false);
      Join(blocks[i - 1], blocks[i], false);
      RemoveFromList(prev);
      ghost var m1 := View();
      StaysTagged(m, m1, st.blocks, i - 1, st.order);
      SetSize(prev, originalSize + OVERHEAD + RealSize(Load(prev + 8)), false);
      if tail == nptr {
        tail := prev;
      }
      AbsorbPrevKeeps(st, nptr);
      blocks := st.blocks[..i - 1] + [b] + st.blocks[i + 1..];
      Pair(st.blocks, i - 1);
      assert Used(st.blocks[i - 1..i + 1]) == {st.blocks[i]};
      TagCommutes(m, m1, b, st.order);
      CloseOne(st, m, i - 1, i + 1, b, st.order);
      TaggedAround(m, b, nptr + HEADER, st.blocks[i].End() - 4);
      LinksFree(st.order, FreeAddrs(st.blocks));
      KeptBytes(st, m, Tagged(m, b), View(), i, st.blocks[i].size, st.order);
    }

    /** Copies bytes to the front of the used block j. */
    method CopyInto(dst: int, src: int, n: int, ghost j: nat)
      requires Valid() && j < |blocks| && !blocks[j].free && dst == blocks[j].addr + HEADER
      requires 0 <= n <= blocks[j].size && n % 16 == 0 && src % 4 == 0
      requires base <= src && src + n <= vm.heapCurr && (dst <= src || src + n <= dst)
      modifies mem
      ensures Valid() && Done(old(Tiling()), old(View()), old(Tiling()), {blocks[j]}, {blocks[j]})
      ensures Bytes(View(), dst, n) == Bytes(old(View()), src, n)
    {
      hide KernelSpace.Valid, KernelSpace.Sound, KernelSpace.Covered, KernelSpace.HeapMapped, In, View, Load, RealSize;
      hide Tiled, Tags, Listed, FreeAddrs, Used, Touches, LinksOnly, Linkable, Fits, Tagged, Swapped, Aligned, Elems;
      hide Laid, Based, IndexOf, Without, Distinct;
      hide Bytes, Copied;
      PlaceOf(j);
      ghost var st, m, b := Tiling(), View(), blocks[j];
      FourOf(b, n);
      Memcpy(dst, src, n);
      CopiedInside(st, m, View(), j, src, n, freeList);
      Single(blocks, j);
      Close(st, m, j, j + 1, [b]);
      CopiedBytes(m, View(), dst, src, n, n);
    }

    lemma FourOf(b: Block, n: int)
      requires b.addr % 16 == 0 && b.size % 16 == 0 && n % 16 == 0
      ensures n % 4 == 0 && (b.addr + HEADER) % 4 == 0 && (b.addr + 8) % 4 == 0 && (b.addr + HEADER + b.size) % 4 == 0
    {
      var q := BySixteen(b.addr);
      var r := BySixteen(b.size);
      var t := BySixteen(n);
      FourDivides(n, 4 * t);
      FourDivides(b.addr + HEADER, 4 * q + 3);
      FourDivides(b.addr + 8, 4 * q + 2);
      FourDivides(b.addr + HEADER + b.size, 4 * q + 4 * r + 3);
    }

    /** The end of a used block becomes a free block together with the free right neighbour: the writes. */
    method CutWrites(nptr: int, need: int, next: int, ghost i: nat, ghost c: Block, ghost d: Block)
      requires Valid() && i + 1 < |blocks| && blocks[i].addr == nptr && !blocks[i].free && blocks[i + 1].free
      requires 16 <= need && need % 16 == 0 && need + SPLIT_MIN <= blocks[i].size && next == blocks[i + 1].addr
      requires c == Block(nptr, need, false)
      requires d == Block(nptr + OVERHEAD + need, blocks[i].size - need + blocks[i + 1].size, true)
      modifies mem, this`freeList, this`order, this`tail
      ensures ListOk() && order == [d.addr] + Without(old(order), next)
      ensures LinksOnly(Tagged(Tagged(old(View()), c), d), View(), [d.addr] + old(order))
      ensures tail == if old(tail) == next then d.addr else old(tail)
      ensures d.size % 16 == 0 && d.size >= 16 && d.addr % 16 == 0 && d.End() == blocks[i + 1].End()
      ensures d.addr !in old(order)
    {
      hide KernelSpace.Valid, KernelSpace.Sound, KernelSpace.Covered, KernelSpace.HeapMapped, In, View, Load, RealSize;
      hide Tiled, Tags, Listed, FreeAddrs, Used, Touches, LinksOnly, Linkable, Fits, Tagged, Swapped, Aligned, Elems;
      hide Laid, Based, IndexOf, Without, Distinct;
      PlaceOf(i);
      PlaceOf(i + 1);
      ghost var st, m, n := Tiling(), View(), blocks[i + 1];
      var rest := RealSize(Load(nptr + 8)) + OVERHEAD - (need + OVERHEAD);
      var split := nptr + HEADER + need + 4;
      Cut(blocks[i], need);
      Join(Block(split, rest - OVERHEAD, true), n, true);
      InsideIn(i, split);
      SetSize(nptr, need, false);
      SizesApart(m, c, n);
      SetSize(split, rest + RealSize(Load(next + 8)), true);
      ghost var m2 := View();
      RemoveFromList(next);
      ghost var m3 := View();
      if tail == next {
        tail := split;
      }
      FreshAddr(st, i, split);
      NotInRest(st.order, next, split);
      AddToList(split);
      LinksTwice(m2, m3, View(), st.order, order, [split] + st.order);
    }

    method ShrinkIntoNextBlock(nptr: int, need: int, next: int, ghost i: nat)
      requires Valid() && i + 1 < |blocks| && blocks[i].addr == nptr && !blocks[i].free && Has(blocks, nptr, false)
      requires 16 <= need && need % 16 == 0 && need + SPLIT_MIN <= blocks[i].size
      requires NextFree(Tiling(), i) && next == blocks[i + 1].addr
      modifies this, mem
      ensures Valid()
      ensures Done(old(Tiling()), old(View()), Shrink(old(Tiling()), i, need), {old(blocks)[i]}, {Block(nptr, need, false)})
      ensures Bytes(View(), nptr + HEADER, need) == Bytes(old(View()), nptr + HEADER, need)
    {
      hide KernelSpace.Valid, KernelSpace.Sound, KernelSpace.Covered, KernelSpace.HeapMapped, In, View, Load, RealSize;
      hide Tiled, Tags, Listed, FreeAddrs, Used, Touches, LinksOnly, Linkable, Fits, Tagged, Swapped, Aligned, Elems;
      hide Laid, Based, IndexOf, Without, Distinct;
      hide Bytes, Shrink;
      PlaceOf(i);
      ghost var st, m := Tiling(), View();
      ghost var c := Block(nptr, need, false);
      ghost var d := Block(c.End(), blocks[i].size - need + blocks[i + 1].size, true);
      CutWrites(nptr, need, next, i, c, d);
      ShrinkIntoNext(st, nptr, need);
      ShrinkIs(st, i, need);
      blocks := st.blocks[..i] + [c, d] + st.blocks[i + 2..];
      Pair(st.blocks, i);
      assert Used(st.blocks[i..i + 2]) == {st.blocks[i]};
      CloseTwo(st, m, i, i + 2, c, d, [d.addr] + st.order);
      CutBytes(st, m, View(), i, c, d);
    }

    /** The end of a used block becomes a free block; `tail` does not move, even when it should. */
    method ShrinkAloneBlock(nptr: int, need: int, ghost i: nat)
      requires Valid() && i < |blocks| && blocks[i].addr == nptr && !blocks[i].free && Has(blocks, nptr, false)
      requires 16 <= need && need % 16 == 0 && need + SPLIT_MIN <= blocks[i].size && !NextFree(Tiling(), i)
      modifies this, mem
      ensures Valid() <==> old(tail) != nptr
      ensures Done(old(Tiling()), old(View()), Shrink(old(Tiling()), i, need), {old(blocks)[i]}, {Block(nptr, need, false)})
      ensures Bytes(View(), nptr + HEADER, need) == Bytes(old(View()), nptr + HEADER, need)
    {
      hide KernelSpace.Valid, KernelSpace.Sound, KernelSpace.Covered, KernelSpace.HeapMapped, In, View, Load, RealSize;
      hide Tiled, Tags, Listed, FreeAddrs, Used, Touches, LinksOnly, Linkable, Fits, Tagged, Swapped, Aligned, Elems;
      hide Laid, Based, IndexOf, Without, Distinct;
      hide Bytes;
      PlaceOf(i);
      ghost var st, m := Tiling(), View();
      var rest := RealSize(Load(nptr + 8)) + OVERHEAD - (need + OVERHEAD);
      var split := nptr + HEADER + need + 4;
      ghost var c, d := Block(nptr, need, false), Block(split, rest - OVERHEAD, true);
      Cut(blocks[i], need);
      InsideIn(i, split);
      SetSize(nptr, need, false);
      SetSize(split, rest - OVERHEAD, true);
      FreshAddr(st, i, split);
      AddToList(split);
      ShrinkAlone(st, nptr, need);
      blocks := st.blocks[..i] + [c, d] + st.blocks[i + 1..];
      Single(st.blocks, i);
      CloseTwo(st, m, i, i + 1, c, d, [split] + st.order);
      CutBytes(st, m, View(), i, c, d);
    }

    lemma SizesApart(m: Image, c: Block, n: Block)
      requires c.addr % 16 == 0 && c.size % 16 == 0 && n.addr % 16 == 0 && c.addr != n.addr
      ensures At(Tagged(m, c), n.addr + 8) == At(m, n.addr + 8)
    {
    }

    /** Cutting a block leaves the bytes of its front. */
    lemma CutBytes(st: State, m: Image, m': Image, i: nat, c: Block, d: Block)
      requires Tiled(st) && i < |st.blocks| && !st.blocks[i].free && c.addr == st.blocks[i].addr
      requires 0 <= c.size <= st.blocks[i].size && d.addr == c.End() && d.size >= 0
      requires Elems(st.order) == FreeAddrs(st.blocks) && LinksOnly(Tagged(Tagged(m, c), d), m', [d.addr] + st.order)
      ensures Bytes(m', c.addr + HEADER, c.size) == Bytes(m, c.addr + HEADER, c.size)
    {
      hide Tiled, FreeAddrs, Elems, LinksOnly, Bytes;
      LinksFree(st.order, FreeAddrs(st.blocks));
      KeptBytes(st, m, Tagged(Tagged(m, c), d), m', i, c.size, [d.addr] + st.order);
    }
  
    /** The moving path of realloc: a new block, a copy, and the old block freed. */
    method MoveBlock(ptr: int, size: int, ghost i: nat) returns (r: Outcome)
      requires Valid() && 0 < size <= MAX_REQUEST && (Extends(Tiling(), size) ==> Backed(size)) && i < |blocks| && !blocks[i].free
      requires ptr == blocks[i].addr + HEADER && Has(blocks, ptr - HEADER, false) && blocks[i].size < size
      modifies this, mem, vm, vm.Repr
      ensures Valid() && vm.Grew(old(vm.Held())) && fresh(vm.Repr - old(vm.Repr))
      ensures var (st1, r1) := HeapModel.Malloc(old(Tiling()), size);
        && r == r1 && !r.Null?
        && (r.Pointer? ==> Has(st1.blocks, ptr - HEADER, false) && Tiling() == Release(st1, ptr - HEADER))
        && (!r.Pointer? ==> st1 == Tiling() == old(Tiling()) && LiveMap() == old(LiveMap()))
      ensures r.Pointer? ==> var b, c := old(blocks)[i], NewBlock(old(Tiling()), size);
        && Swapped(old(Tiling()), old(View()), Tiling(), View(), {b}, {c}) && c !in Used(old(blocks)) && b.size <= c.size
        && r.ptr == c.addr + HEADER
        && Bytes(View(), c.addr + HEADER, b.size) == Payload(old(View()), b)
    {
      hide KernelSpace.Valid, KernelSpace.Sound, KernelSpace.Covered, KernelSpace.HeapMapped, In, View, Load, RealSize, Laid, Based, Live;
      hide Tiled, Tags, Listed, FreeAddrs, Used, Swapped, Distinct, IndexOf, Release, HeapModel.Malloc, Bytes, NewBlock, Has, Adds;
      hide KernelSpace.Held, KernelSpace.Grew, KernelSpace.Room;
      PlaceOf(i);
      Elsewhere();
      ghost var st, m, b, c := Tiling(), View(), blocks[i], NewBlock(Tiling(), size);
      MallocKeeps(st, size);
      r := Malloc(size);
      if !r.Pointer? {
        return;
      }
      ghost var st1, m1 := Tiling(), View();
      MoveIs(st, ptr, size);
      ghost var j := Granting(st, b, c, size);
      var n := RealSize(Load(ptr - HEADER + 8));
      CopyInto(r.ptr, ptr, n, j);
      ghost var m2 := View();
      SwapTwice(st, m, st1, m1, st1, m2, {}, {c}, {c});
      CopyFrom(st, m, st1, m1, b, c);
      Free(ptr);
      SwapThenDrop(st, m, st1, m2, Tiling(), View(), b, c);
      KeepsPayload(st1, m2, b, c, b.size);
    }

    /** After malloc, the old block b and the new block c are used, apart, and where they were. */
    lemma Granting(st: State, b: Block, c: Block, size: int) returns (j: nat)
      requires Valid() && Tiled(st) && b in Used(st.blocks) && Adds(st, Tiling(), c, size) && b.size < size && b != c
      ensures j < |blocks| && blocks[j] == c && !c.free && c !in Used(st.blocks) && c.size >= b.size
      ensures c.End() <= b.addr || b.End() <= c.addr
      ensures In(b.addr + 8) && Load(b.addr + 8) == b.size && RealSize(b.size) == b.size && b.size % 16 == 0 && b.size >= 0
      ensures base <= b.addr && b.End() <= vm.heapCurr && (b.addr + HEADER) % 4 == 0 && Formed()
      ensures Has(blocks, b.addr, false) && blocks[IndexOf(blocks, b.addr)] == b
    {
      hide KernelSpace.Valid, KernelSpace.Sound, KernelSpace.Covered, KernelSpace.HeapMapped, View, Tiled, Tags, Listed, Load, In, Distinct;
      assert b in Used(blocks) && c in Used(blocks);
      UsedIs(Tiling(), b);
      UsedIs(Tiling(), c);
      j := IndexOf(blocks, c.addr);
      PlaceOf(IndexOf(blocks, b.addr));
      FourOf(b, 0);
      assert c !in Used(st.blocks) by {
        if c in Used(st.blocks) { UsedIs(st, c); }
      }
    }

    lemma CopyFrom(st: State, m: Image, st1: State, m1: Image, b: Block, c: Block)
      requires Swapped(st, m, st1, m1, {}, {c}) && b in Used(st.blocks)
      ensures Payload(m1, b) == Payload(m, b)
    {
    }

    lemma KeepsPayload(st1: State, m2: Image, b: Block, c: Block, n: int)
      requires base % 4 == 0
      requires Swapped(st1, m2, Tiling(), View(), {b}, {}) && c in Used(st1.blocks) && c != b && 0 <= n <= c.size
      ensures Bytes(View(), c.addr + HEADER, n) == Bytes(m2, c.addr + HEADER, n)
    {
      hide View;
      assert c in Used(st1.blocks) - {b} && Payload(View(), c) == Payload(m2, c);
      PrefixBytes(View(), c.addr + HEADER, c.size, n);
      PrefixBytes(m2, c.addr + HEADER, c.size, n);
    }
  
    function Least(a: int, b: int): int { if a <= b then a else b }

    /** The block b behind ptr has become what realloc makes of it, with the bytes both have room for. */
    ghost predicate Resized(st: State, m: Image, ptr: int, size: int, r: Outcome)
      requires Has(st.blocks, ptr - HEADER, false)
      reads this, mem, vm, vm.Repr
    {
      var b, c := st.blocks[IndexOf(st.blocks, ptr - HEADER)], MovedBlock(st, ptr, size);
      && Laid() && (Tiling(), r) == HeapModel.Realloc(st, ptr, size) && r == Pointer(c.addr + HEADER)
      && Swapped(st, m, Tiling(), View(), {b}, {c}) && (c == b || c !in Used(st.blocks))
      && Bytes(View(), c.addr + HEADER, Least(b.size, c.size)) == Bytes(m, b.addr + HEADER, Least(b.size, c.size))
    }

    method IntoNextPath(ptr: int, size: int, next: int, ghost i: nat)
      requires Valid() && i + 1 < |blocks| && blocks[i].addr == ptr - HEADER && Has(blocks, ptr - HEADER, false)
      requires i == IndexOf(blocks, ptr - HEADER) && PathOf(Tiling(), i, size).IntoNext? && ptr != 0 && size != 0
      requires next == blocks[i + 1].addr
      modifies this, mem
      ensures Valid() && Resized(old(Tiling()), old(View()), ptr, size, Pointer(ptr))
    {
      hide KernelSpace.Valid, KernelSpace.Sound, KernelSpace.Covered, KernelSpace.HeapMapped, In, View, Load, RealSize, Laid, Based;
      hide Tags, Listed, Used, Swapped, Bytes, AbsorbNext;
      Opened();
      ghost var st, m := Tiling(), View();
      OtherBlock(st, i, Block(ptr - HEADER, blocks[i].size + OVERHEAD + blocks[i + 1].size, false));
      GrowIntoNext(ptr - HEADER, next, i);
    }

    method IntoPrevPath(ptr: int, size: int, prev: int, ghost i: nat)
      requires Valid() && 0 < i < |blocks| && blocks[i].addr == ptr - HEADER && Has(blocks, ptr - HEADER, false)
      requires i == IndexOf(blocks, ptr - HEADER) && PathOf(Tiling(), i, size).IntoPrev? && ptr != 0 && size != 0
      requires prev == blocks[i - 1].addr
      modifies this, mem
      ensures Valid() && Resized(old(Tiling()), old(View()), ptr, size, Pointer(prev + HEADER))
    {
      hide KernelSpace.Valid, KernelSpace.Sound, KernelSpace.Covered, KernelSpace.HeapMapped, In, View, Load, Laid, Based, Tiled;
      hide Tags, Listed, Used, Swapped, Bytes, AbsorbPrev;
      PlaceOf(i);
      PlaceOf(i - 1);
      ghost var st, m, b := Tiling(), View(), blocks[i];
      ghost var c := Block(prev, b.size + OVERHEAD + blocks[i - 1].size, false);
      var originalSize := RealSize(Load(ptr - HEADER + 8));
      OtherBlock(st, i - 1, c);
      FourOf(b, 0);
      GrowIntoPrev(prev, ptr - HEADER, i);
      ghost var st1, m1 := Tiling(), View();
      ghost var j := Absorbing(st, i, c);
      CopyInto(prev + HEADER, ptr, originalSize, j);
      NotAmong(st, b, c);
      SwapTwice(st, m, st1, m1, st1, View(), {b}, {c}, {c});
    }

    /** The absorbed pair is one used block, at the left one's place. */
    lemma Absorbing(st: State, i: nat, c: Block) returns (j: nat)
      requires Laid() && Tiled(st) && 0 < i < |st.blocks| && Tiling() == AbsorbPrev(st, i)
      requires c == Block(st.blocks[i - 1].addr, st.blocks[i].size + OVERHEAD + st.blocks[i - 1].size, false)
      ensures j < |blocks| && blocks[j] == c && base <= st.blocks[i].addr && st.blocks[i].End() <= vm.heapCurr && Formed()
    {
      hide KernelSpace.Valid, KernelSpace.Sound, KernelSpace.Covered, KernelSpace.HeapMapped, View, Tiled, Tags, Listed;
      j := i - 1;
      assert blocks[j] == c;
      Place(st, i);
    }

    lemma NotAmong(st: State, b: Block, c: Block)
      requires c !in Used(st.blocks)
      ensures {c} !! Used(st.blocks) - {b}
    {
    }

    /** A block at block i's address, but of another size or kind, is no used block of the tiling. */
    lemma OtherBlock(st: State, i: nat, c: Block)
      requires Tiled(st) && i < |st.blocks| && c.addr == st.blocks[i].addr && !c.free
      requires st.blocks[i].free || c.size != st.blocks[i].size
      ensures c !in Used(st.blocks)
    {
      hide Tiled;
      Place(st, i);
      if c in Used(st.blocks) { UsedIs(st, c); }
    }

    method GiveBackPath(ptr: int, size: int, next: int, ghost i: nat)
      requires Valid() && i < |blocks| && blocks[i].addr == ptr - HEADER && Has(blocks, ptr - HEADER, false)
      requires i == IndexOf(blocks, ptr - HEADER) && PathOf(Tiling(), i, size).GiveBack? && ptr != 0 && size > 0
      requires next == if i + 1 < |blocks| then blocks[i + 1].addr else 0
      modifies this, mem
      ensures Resized(old(Tiling()), old(View()), ptr, size, Pointer(ptr)) && (Valid() <==> old(tail) != ptr - HEADER)
    {
      hide KernelSpace.Valid, KernelSpace.Sound, KernelSpace.Covered, KernelSpace.HeapMapped, In, View, Load, RealSize, Laid, Based, Tiled;
      hide Tags, Listed, Used, Swapped, Bytes, Shrink;
      Opened();
      ghost var st, m := Tiling(), View();
      var need := (size + 15) / 16 * 16;
      RoundedIs(size);
      OtherBlock(st, i, Block(ptr - HEADER, need, false));
      SidesAre(i);
      if next != 0 && IsFree(next) {
        ShrinkIntoNextBlock(ptr - HEADER, need, next, i);
      } else {
        ShrinkAloneBlock(ptr - HEADER, need, i);
      }
    }

    /** What a resized block means for the callers. */
    lemma ResizedLive(st: State, m: Image, ptr: int, size: int, r: Outcome)
      requires Inv(st) && 0 < size <= MAX_REQUEST && Has(st.blocks, ptr - HEADER, false) && ptr != 0
      requires Resized(st, m, ptr, size, r) && Formed()
      ensures r.Pointer? && r.ptr in LiveMap() && 4 * |LiveMap()[r.ptr]| >= size
      ensures LiveMap() - {r.ptr} == Live(m, st.blocks) - {ptr}
      ensures ptr in Live(m, st.blocks) && SamePrefix(Live(m, st.blocks)[ptr], LiveMap()[r.ptr])
    {
      hide KernelSpace.Valid, KernelSpace.Sound, KernelSpace.Covered, KernelSpace.HeapMapped, View, Tiled, Tags, Listed;
      hide Live, SamePrefix, MovedBlock, HeapModel.Realloc, Swapped, Used, Bytes, PathOf;
      ReallocKeeps(st, ptr, size);
      LiveResized(st, Tiling(), m, View(), st.blocks[IndexOf(st.blocks, ptr - HEADER)], MovedBlock(st, ptr, size), size);
    }

    /** What realloc returns: a resized block, or nothing changed because the heap is full. */
    ghost predicate Answered(st: State, m: Image, ptr: int, size: int, r: Outcome)
      requires Has(st.blocks, ptr - HEADER, false)
      reads this, mem, vm, vm.Repr
    {
      && Laid() && !r.Null? && (Tiling(), r) == HeapModel.Realloc(st, ptr, size)
      && (r.Panic? ==> Tiling() == st && Live(View(), blocks) == Live(m, st.blocks))
      && (r.Pointer? ==> Resized(st, m, ptr, size, r))
    }

    /** What realloc reads of block i. */
    lemma Measured(i: nat)
      requires Valid() && i < |blocks|
      ensures var b := blocks[i];
        && Formed() && In(b.addr + 8) && b.addr > 0 && b.size >= 16
        && Load(b.addr + 8) == b.Tag() && RealSize(Load(b.addr + 8)) == b.size
    {
      hide Based, View, Load, In, RealSize, Tiled, Tags, Listed;
      PlaceOf(i);
    }

    /** The paths of realloc for a live block and a size that is not 0. */
    method Resize(ptr: int, size: int, ghost i: nat) returns (r: Outcome)
      requires Valid() && 0 < size <= MAX_REQUEST && ptr != 0 && i < |blocks|
      requires i == IndexOf(blocks, ptr - HEADER) && Has(blocks, ptr - HEADER, false)
      requires ReallocExtends(Tiling(), ptr, size) ==> Backed(size)
      modifies this, mem, vm, vm.Repr
      ensures Formed() && Answered(old(Tiling()), old(View()), ptr, size, r) && vm.Grew(old(vm.Held())) && fresh(vm.Repr - old(vm.Repr))
    {
      hide KernelSpace.Valid, KernelSpace.Sound, KernelSpace.Covered, KernelSpace.HeapMapped, In, View, Load, RealSize, Laid, Based;
      hide Tiled, HeapModel.Realloc, Resized, IsFree, GetPrevBlock, GetNextBlock;
      hide KernelSpace.Held, KernelSpace.Grew, KernelSpace.Room;
      Elsewhere();
      vm.GrewNothing();
      Measured(i);
      StepIs(i);
      SidesAre(i);
      var nptr := ptr - HEADER;
      var nextBlock := GetNextBlock(nptr);
      var prevBlock := GetPrevBlock(nptr);
      var nsize := Load(nptr + 8);
      var roundedSize := (size + 15) / 16 * 16;
      if i > 0 { Measured(i - 1); }
      if i + 1 < |blocks| { Measured(i + 1); }
      ghost var st, m := Tiling(), View();
      if nsize == size {
        KeepPath(ptr, size, i);
        r := Pointer(ptr);
      } else if nsize < size {
        if tail != nptr && IsFree(nextBlock) && RealSize(nsize) + OVERHEAD + RealSize(Load(nextBlock + 8)) >= roundedSize {
          IntoNextPath(ptr, size, nextBlock, i);
          r := Pointer(ptr);
        } else if head != nptr && IsFree(prevBlock) && RealSize(nsize) + OVERHEAD + RealSize(Load(prevBlock + 8)) >= roundedSize {
          IntoPrevPath(ptr, size, prevBlock, i);
          r := Pointer(prevBlock + HEADER);
        } else {
          r := MovePath(ptr, size, i);
          return;
        }
      } else {
        var rest := RealSize(nsize) + OVERHEAD - (roundedSize + OVERHEAD);
        if rest < SPLIT_MIN {
          KeepPath(ptr, size, i);
        } else {
          GiveBackPath(ptr, size, nextBlock, i);
        }
        r := Pointer(ptr);
      }
      AnswerIs(st, m, ptr, size, r);
    }

    lemma AnswerIs(st: State, m: Image, ptr: int, size: int, r: Outcome)
      requires Has(st.blocks, ptr - HEADER, false) && r.Pointer? && Resized(st, m, ptr, size, r)
      ensures Formed() && Answered(st, m, ptr, size, r)
    {
      hide View, KernelSpace.Valid, KernelSpace.Sound, KernelSpace.Covered, Tags, Listed, Tiled;
    }

    lemma KeepPath(ptr: int, size: int, i: nat)
      requires Valid() && i < |blocks| && Has(blocks, ptr - HEADER, false) && ptr != 0 && size != 0
      requires i == IndexOf(blocks, ptr - HEADER) && PathOf(Tiling(), i, size).Keep?
      ensures Resized(Tiling(), View(), ptr, size, Pointer(ptr))
    {
      hide KernelSpace.Valid, KernelSpace.Sound, KernelSpace.Covered, KernelSpace.HeapMapped, View, Tags, Listed, Tiled;
      KeepsAll(Tiling(), i);
    }

    method MovePath(ptr: int, size: int, ghost i: nat) returns (r: Outcome)
      requires Valid() && 0 < size <= MAX_REQUEST && (Extends(Tiling(), size) ==> Backed(size)) && ptr != 0 && i < |blocks|
      requires i == IndexOf(blocks, ptr - HEADER) && Has(blocks, ptr - HEADER, false) && PathOf(Tiling(), i, size).Move?
      modifies this, mem, vm, vm.Repr
      ensures Valid() && Formed() && Answered(old(Tiling()), old(View()), ptr, size, r) && vm.Grew(old(vm.Held())) && fresh(vm.Repr - old(vm.Repr))
    {
      hide KernelSpace.Valid, KernelSpace.Sound, KernelSpace.Covered, KernelSpace.HeapMapped, In, View, Load, RealSize, Laid, Based, Live;
      hide Tiled, Tags, Listed, FreeAddrs, Used, Swapped, Distinct, Release, HeapModel.Malloc, Bytes, NewBlock, Adds;
      hide KernelSpace.Held, KernelSpace.Grew, KernelSpace.Room;
      Opened();
      r := MoveBlock(ptr, size, i);
      Opened();
    }

    lemma KeepsAll(st: State, i: nat)
      requires Laid() && st == Tiling() && i < |blocks| && !blocks[i].free
      ensures Swapped(st, View(), st, View(), {blocks[i]}, {blocks[i]})
    {
      assert blocks[i] in Used(blocks);
    }

    lemma LiveHere(ptr: int)
      requires Laid() && Has(blocks, ptr - HEADER, false)
      ensures Formed() && ptr in LiveMap()
    {
      hide KernelSpace.Valid, KernelSpace.Sound, KernelSpace.Covered, KernelSpace.HeapMapped, View, Tiled, Tags, Listed, Live;
      var b := blocks[IndexOf(blocks, ptr - HEADER)];
      assert b in Used(blocks);
      LiveAt(Tiling(), View(), b);
    }

    lemma ZeroIsDead()
      requires Laid()
      ensures Formed() && 0 !in LiveMap()
    {
      hide KernelSpace.Valid, KernelSpace.Sound, KernelSpace.Covered, KernelSpace.HeapMapped, View, Tiled, Tags, Listed;
      if 0 in LiveMap() {
        var c := LiveBlock(Tiling(), View(), 0);
        UsedIs(Tiling(), c);
        Opened();
      }
    }

    /** Resizes a live allocation, on whichever path the sizes allow. The bytes both sizes have room for
        stay, wherever the block goes, and no other live byte changes. */
    method Realloc(ptr: int, size: int) returns (r: Outcome)
      requires Valid() && 0 <= size <= MAX_REQUEST
      requires ptr == 0 || Has(blocks, ptr - HEADER, false)
      requires ReallocExtends(Tiling(), ptr, size) ==> Backed(size)
      modifies this, mem, vm, vm.Repr
      ensures (Tiling(), r) == HeapModel.Realloc(old(Tiling()), ptr, size)
      ensures Laid() && (Valid() <==> !TailShrink(old(Tiling()), ptr, size))
      ensures Effect(Op.Resize(ptr, size), r, old(LiveMap()), LiveMap())
      ensures ptr != 0 ==> ptr in old(LiveMap())
      ensures vm.Grew(old(vm.Held())) && fresh(vm.Repr - old(vm.Repr))
    {
      hide KernelSpace.Valid, KernelSpace.Sound, KernelSpace.Covered, KernelSpace.HeapMapped, In, View, Load, RealSize, Laid, Based, Live;
      hide Tiled, Tags, Listed, FreeAddrs, Used, Swapped, Distinct, IndexOf, Release, HeapModel.Malloc, Bytes, NewBlock, Adds, Resized;
      hide KernelSpace.Held, KernelSpace.Grew, KernelSpace.Room;
      ZeroIsDead();
      vm.GrewNothing();
      Elsewhere();
      if ptr == 0 {
        r := Malloc(size);
        return;
      }
      LiveHere(ptr);
      if size == 0 {
        Free(ptr);
        return Null;
      }
      ghost var st, m := Tiling(), View();
      Opened();
      ReallocKeeps(st, ptr, size);
      r := Resize(ptr, size, IndexOf(blocks, ptr - HEADER));
      if r.Pointer? {
        ResizedLive(st, m, ptr, size, r);
      }
    }
  }
}
