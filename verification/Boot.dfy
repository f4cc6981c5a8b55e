/** Start-up of memory management, in the order of src/Kernel/KernelMain.c:443-445: the frame bitmap, paging, then
    the kernel heap (src/mem/kheap.c:135-143) over pages that paging has mapped. */
module Boot {
  import opened Paging
  import opened KernelHeap
  import opened HeapModel
  import opened HeapProperties
  import opened HeapRuns
  import opened HeapSession

  const MEMORY := 1096 * 0x10_0000
  const KHEAP_START := 0xC040_0000
  const KHEAP_INITIAL_SIZE := 48 * 0x10_0000
  const KHEAP_MAX_ADDRESS := 0xCFFF_FFFF
  const IMAGE_LIMIT := 0xC030_0000              // the kernel image, after which the bitmap lies, ends below

  method InitKheap(vm: KernelSpace, start: nat, end: nat, max: nat)
    modifies vm`heapStart, vm`heapEnd, vm`heapMax, vm`heapCurr
    ensures (vm.heapStart, vm.heapEnd, vm.heapMax, vm.heapCurr) == (start, end, max, start)
  {
    vm.heapStart, vm.heapEnd, vm.heapMax, vm.heapCurr := start, end, max, start;
  }

  /** The machine the kernel starts with meets every requirement of the heap: an empty heap over mapped pages, with
      frames left for it to grow, and page tables for low memory and the kernel only. */
  method Start(bitmapAddr: nat) returns (heap: Heap)
    requires KERNEL_BASE <= bitmapAddr < IMAGE_LIMIT
    ensures fresh(heap) && fresh(heap.mem) && fresh(heap.vm) && fresh(heap.vm.Repr)
    ensures heap.Valid() && heap.blocks == [] && heap.vm.enabled && heap.vm.Linear(LINEAR_PAGES)
    ensures heap.vm.heapStart == heap.vm.heapCurr == 0xC040_0000
    ensures heap.vm.heapEnd == 0xC340_0000 && heap.vm.heapMax == 0xCFFF_FFFF
    ensures heap.vm.pmm.totalBlocks == 1096 * 256 && HeapTablesOnly(heap.vm, {})
    ensures heap.vm.Room() >= KHEAP_MAX_ADDRESS
  {
    hide KernelSpace.Valid, KernelSpace.Sound, KernelSpace.Covered;
    var vm := StartPaging(bitmapAddr);
    vm.NotInRepr();
    InitKheap(vm, KHEAP_START, KHEAP_START + KHEAP_INITIAL_SIZE, KHEAP_MAX_ADDRESS);
    heap := new Heap(vm);
  }

  /** init_pmm and init_paging. */
  method StartPaging(bitmapAddr: nat) returns (vm: KernelSpace)
    requires KERNEL_BASE <= bitmapAddr < IMAGE_LIMIT
    ensures fresh(vm) && fresh(vm.Repr) && vm.Valid() && vm.Sound() && vm.Covered() && vm.enabled && vm.Linear(LINEAR_PAGES)
    ensures forall p: nat :: p in vm.pages <==> BASE_PAGE <= p < BASE_PAGE + LINEAR_PAGES || p <= 16
    ensures forall p: nat :: 1 <= p <= 16 ==> vm.pages[p] == p
    ensures vm.pmm.totalBlocks == MEMORY / PAGE_SIZE && HeapTablesOnly(vm, {})
    ensures |vm.pmm.Free()| >= MEMORY / PAGE_SIZE - LINEAR_PAGES - 17
  {
    hide KernelSpace.Valid, KernelSpace.Covered;
    vm := new KernelSpace(MEMORY, bitmapAddr);
    vm.InitPaging();
  }

  // ---- Page tables and heap -----------------------------------------------------------------------

  const KERNEL_TABLES := 64                     // directory entries from KERNEL_BASE to KHEAP_MAX_ADDRESS

  /** Apart from the directory entries `others`, tables have been made only for low memory and for addresses below the
      limit of the heap. */
  ghost predicate HeapTablesOnly(vm: KernelSpace, others: set<int>)
    reads vm.dir
  {
    && vm.origin <= IMAGE_LIMIT + 0x1_0000
    && Untouched(vm.Missing(), others)
  }

  ghost predicate Untouched(missing: set<int>, others: set<int>) {
    forall i :: 0 < i < ENTRIES && !(KERNEL_TABLE <= i < KERNEL_TABLE + KERNEL_TABLES) && i !in others ==> i in missing
  }

  /** The directory entries from low up to high. */
  function Entries(low: nat, high: nat): (s: set<int>)
    ensures forall i :: i in s <==> low <= i < high
    ensures low <= high ==> |s| == high - low
  {
    if high <= low then {} else Entries(low, high - 1) + {high - 1}
  }

  /** Then the tables that the bump allocator has handed out lie below the heap, as long as the others are not more than
      174 in number. */
  lemma TablesBelowHeap(vm: KernelSpace, others: set<int>)
    requires vm.Valid() && vm.Sound() && HeapTablesOnly(vm, others) && |others| <= 174
    ensures forall i :: 0 <= i < ENTRIES && vm.dir[i].table != null ==> vm.dir[i].addr + TABLE_BYTES <= KHEAP_START
    ensures PageAlign(vm.tempMem) <= KHEAP_START
  {
    hide KernelSpace.Valid, KernelSpace.Sound, KernelSpace.Missing;
    var all := vm.Missing() + others;
    var low := set i | i in all && i < KERNEL_TABLE;
    var high := all - low;
    ManyAtLeast(low, 1, KERNEL_TABLE - 1);
    ManyAtLeast(high, KERNEL_TABLE + KERNEL_TABLES, ENTRIES - KERNEL_TABLE - KERNEL_TABLES);
    assert all == low + high;
    assert |all| == |vm.Missing()| + |others - vm.Missing()| && |others - vm.Missing()| <= |others| by {
      assert all == vm.Missing() + (others - vm.Missing()) && others == (others - vm.Missing()) + (others * vm.Missing());
    }
    vm.TablesBelow(KERNEL_TABLES + 1 + |others|, KHEAP_START);
  }

  /** Whatever run of heap calls follows, that stays so. */
  lemma GrowingKeepsTables(vm: KernelSpace, was: Holding, others: set<int>)
    requires vm.Grew(was) && vm.heapStart == KHEAP_START && vm.heapMax == KHEAP_MAX_ADDRESS
    requires vm.origin <= IMAGE_LIMIT + 0x1_0000 && Untouched(was.missing, others)
    ensures HeapTablesOnly(vm, others)
  {
  }

  // ---- From start-up on --------------------------------------------------------------------------

  function EmptyHeap(): State { State(KHEAP_START, KHEAP_MAX_ADDRESS, KHEAP_START, KHEAP_START + KHEAP_INITIAL_SIZE, [], [], 0) }

  /** Start-up, and then any sequence of heap calls: there are frames for all the heap's pages up to its limit, page tables
      never reach the heap, and callers see exactly what the calls say. Each block that is taken from the break must fit; a
      run may be of any length, and ask for any amount of memory in all. */
  method Session(bitmapAddr: nat, ops: seq<Op>) returns (heap: Heap, rs: seq<Outcome>, ghost lives: seq<Lives>)
    requires KERNEL_BASE <= bitmapAddr < IMAGE_LIMIT
    requires Legal(EmptyHeap(), ops) && Fitting(EmptyHeap(), ops, KHEAP_MAX_ADDRESS)
    ensures heap.Laid() && heap.Tiling() == Final(EmptyHeap(), ops) && (heap.Valid() <==> Inv(heap.Tiling()))
    ensures Observed(ops, rs, lives) && lives[0] == map[] && lives[|ops|] == heap.LiveMap()
    ensures forall i :: 0 <= i < ENTRIES && heap.vm.dir[i].table != null ==> heap.vm.dir[i].addr + TABLE_BYTES <= KHEAP_START
    ensures PageAlign(heap.vm.tempMem) <= KHEAP_START
  {
    hide KernelSpace.Sound, KernelSpace.Covered, KernelSpace.Missing, Legal, Final, Fitting, Observed, Inv;
    heap := Start(bitmapAddr);
    ghost var held := heap.vm.Held();
    StartsEmpty(heap);
    MoreRoom(EmptyHeap(), ops, KHEAP_MAX_ADDRESS, heap.vm.Room());
    rs, lives := Calls(heap, ops);
    GrowingKeepsTables(heap.vm, held, {});
    TablesBelowHeap(heap.vm, {});
  }

  /** That holds of every sequence of requests below 768 MB each. */
  lemma RequestsFit(ops: seq<Op>)
    requires Legal(EmptyHeap(), ops) && forall i :: 0 <= i < |ops| ==> Demand(ops[i]) < 0x3000_0000
    ensures Fitting(EmptyHeap(), ops, KHEAP_MAX_ADDRESS)
  {
    hide Legal, Fitting, Demand;
    SmallRequestsFit(EmptyHeap(), ops, KHEAP_MAX_ADDRESS, KHEAP_MAX_ADDRESS + 1);
  }

  lemma StartsEmpty(heap: Heap)
    requires heap.Valid() && heap.blocks == []
    ensures heap.order == [] && heap.tail == 0 && heap.LiveMap() == map[]
  {
    hide KernelSpace.Valid, KernelSpace.Sound, KernelSpace.Covered;
    SomeElement(heap.order);
  }

  lemma SomeElement(s: seq<int>)
    ensures s != [] ==> Elems(s) != {}
  {
    if s != [] { assert s[0] in Elems(s); }
  }

  // ---- What the kernel maps later, and what it must not unmap ------------------------------------

  /** vesa_init maps the framebuffer to itself. Its frames are none of the allocator's, so every contract of the heap
      goes on to hold: the heap is what it was, block by block and byte by byte. */
  method MapFramebuffer(heap: Heap, start: nat, end: nat)
    requires heap.Valid() && heap.vm.pmm.totalBlocks <= start / PAGE_SIZE && 0 < start / PAGE_SIZE
    requires start < ADDRESS_SPACE && end < ADDRESS_SPACE - PAGE_SIZE
    modifies heap.vm`tempMem, heap.vm`pages, heap.vm`Repr, heap.vm.Repr
    ensures heap.Valid() && heap.Tiling() == old(heap.Tiling()) && heap.LiveMap() == old(heap.LiveMap())
    ensures forall p: nat :: start / PAGE_SIZE <= p <= end / PAGE_SIZE ==> p in heap.vm.pages
    ensures forall p: nat :: start / PAGE_SIZE <= p <= end / PAGE_SIZE && p !in old(heap.vm.pages) ==> heap.vm.pages[p] == p
    ensures old(HeapTablesOnly(heap.vm, {})) ==>
      HeapTablesOnly(heap.vm, Entries(TableOf(start), TableOf(end) + 1))
  {
    heap.vm.AllocRegion(start, end, true);
  }

  /** Freeing a low page the way free_region does gives the frame away under the kernel: the page that kernel code
      uses for it is still mapped to it. */
  method FreeLowPage(bitmapAddr: nat) returns (vm: KernelSpace)
    requires KERNEL_BASE <= bitmapAddr < IMAGE_LIMIT
    ensures BASE_PAGE + 1 in vm.pages && vm.pages[BASE_PAGE + 1] == 1 && 1 in vm.pmm.Free() && !vm.Covered()
  {
    hide KernelSpace.Valid, KernelSpace.Sound, KernelSpace.Covered;
    vm := StartPaging(bitmapAddr);
    assert vm.pages[1] == 1 && vm.pages[BASE_PAGE + 1] == 1;
    vm.EnoughBits();
    ghost var was := vm.pages;
    vm.FreePage(PAGE_SIZE, true);
    assert BASE_PAGE + 1 in vm.pages && vm.pages[BASE_PAGE + 1] == was[BASE_PAGE + 1];
    assert 1 !in vm.pmm.Taken();
    vm.CoveredIs();
  }
}
