/** kmalloc_int once the heap is up (src/mem/kheap.c:58-123): page aligned blocks and physical addresses. */
module Kmalloc {
  import opened Paging
  import opened HeapModel
  import opened HeapProperties
  import opened HeapMemory
  import opened KernelHeap

  /** What malloc is asked for. */
  function Asked(size: nat, align: bool): nat { if align then size + PAGE_SIZE else size }

  /** (addr & 0xFFFFF000) + 0x1000 */
  function NextPage(addr: int): int { addr / PAGE_SIZE * PAGE_SIZE + PAGE_SIZE }

  /** The address handed out for the block that malloc returned at ptr. */
  function Handed(ptr: int, align: bool): int { if align then NextPage(ptr) else ptr }

  /** With a page more than asked for, the next page boundary and the whole request behind it lie inside the block. */
  lemma HandedInside(st: State, size: nat, align: bool)
    requires Inv(st) && Asked(size, align) <= MAX_REQUEST
    ensures var (st', r) := Malloc(st, Asked(size, align));
      r.Pointer? ==>
        var b, a := NewBlock(st, Asked(size, align)), Handed(r.ptr, align);
        && b in Used(st'.blocks) && b !in Used(st.blocks)
        && r.ptr == b.addr + HEADER <= a && a + size <= b.addr + HEADER + b.size
        && st'.base <= a < st'.brk
        && (if align then a % 4096 == 0 && r.ptr < a <= r.ptr + 4096 else a == r.ptr)
  {
    hide Malloc, NewBlock, Inv, Tiled;
    MallocKeeps(st, Asked(size, align));
    var r := Malloc(st, Asked(size, align)).1;
    if r.Pointer? {
      UsedInside(Malloc(st, Asked(size, align)).0, NewBlock(st, Asked(size, align)));
    }
  }

  lemma UsedInside(st: State, b: Block)
    requires Inv(st) && b in Used(st.blocks)
    ensures st.base <= b.addr && b.addr + OVERHEAD + b.size <= st.brk
  {
    UsedIs(st, b);
  }

  /** virt2phys of an address inside the heap. */
  method Physical(h: Heap, addr: int) returns (paddr: nat)
    requires h.Valid() && h.base <= addr < h.vm.heapCurr
    ensures 0 <= addr / PAGE_SIZE && addr / PAGE_SIZE in h.vm.pages
    ensures h.vm.enabled ==> paddr == h.vm.pages[addr / PAGE_SIZE] * PAGE_SIZE + addr % PAGE_SIZE
  {
    hide KernelSpace.Sound, KernelSpace.Covered, KernelSpace.Valid, Tiled;
    Mapped(h, addr);
    paddr := h.vm.Virt2Phys(addr);
  }

  lemma Mapped(h: Heap, addr: int)
    requires h.Valid() && h.base <= addr < h.vm.heapCurr
    ensures h.vm.Valid() && 0 <= addr < ADDRESS_SPACE && 0 <= addr / PAGE_SIZE < PAGES && addr / PAGE_SIZE in h.vm.pages
  {
    hide KernelSpace.Sound, KernelSpace.Covered, KernelSpace.Valid, Tiled;
  }

  /** The result and its physical address, which is that of the frame mapped there. */
  method KmallocInt(h: Heap, size: nat, align: bool) returns (r: Outcome, paddr: nat)
    requires h.Valid() && Asked(size, align) <= MAX_REQUEST
      && (Extends(h.Tiling(), Asked(size, align)) ==> h.Backed(Asked(size, align)))
    modifies h, h.mem, h.vm, h.vm.Repr
    ensures h.Valid()
    ensures var (st, o) := HeapModel.Malloc(old(h.Tiling()), Asked(size, align));
      && h.Tiling() == st && r == (if o.Pointer? then Pointer(Handed(o.ptr, align)) else o)
      && Effect(Alloc(Asked(size, align)), o, old(h.LiveMap()), h.LiveMap())
    ensures var (st, o) := HeapModel.Malloc(old(h.Tiling()), if align then size + 4096 else size);
      && h.Tiling() == st && (r.Pointer? <==> o.Pointer?)
      && (r.Pointer? ==> if align then r.ptr % 4096 == 0 && o.ptr < r.ptr <= o.ptr + 4096 else r == o)
    ensures r.Pointer? ==> 0 <= r.ptr / PAGE_SIZE && r.ptr / PAGE_SIZE in h.vm.pages
    ensures r.Pointer? && h.vm.enabled ==> paddr == h.vm.pages[r.ptr / PAGE_SIZE] * PAGE_SIZE + r.ptr % PAGE_SIZE
  {
    hide Heap.Valid, Heap.Backed, Heap.LiveMap, HeapModel.Malloc, NewBlock, Handed, Effect, Extends;
    ghost var st := h.Tiling();
    Whole(h);
    HandedInside(st, size, align);
    r := h.Malloc(Asked(size, align));
    paddr := 0;
    if r.Pointer? {
      r := Pointer(Handed(r.ptr, align));
      paddr := Physical(h, r.ptr);
    }
  }

  lemma Whole(h: Heap)
    requires h.Valid()
    ensures Inv(h.Tiling())
  {
    hide KernelSpace.Sound, KernelSpace.Covered, KernelSpace.Valid, KernelSpace.HeapMapped;
  }
}
