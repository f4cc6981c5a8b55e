/** Whole runs of mapping and unmapping: pages and frames stay in step (src/mem/paging.c:91-153). */
module PagingRuns {
  import opened Frames
  import opened Paging

  /** alloc_page with frame 0, or free_page that gives the frame back. */
  datatype PageOp = Map(vaddr: nat) | Unmap(vaddr: nat)

  function PageOf(op: PageOp): nat { op.vaddr / PAGE_SIZE }

  function MappedAfter(mapped: set<nat>, op: PageOp): set<nat> {
    if op.Map? then mapped + {PageOf(op)} else mapped - {PageOf(op)}
  }

  /** The pages mapped after a run. */
  function MappedBy(mapped: set<nat>, ops: seq<PageOp>): set<nat>
    decreases |ops|
  {
    if ops == [] then mapped else MappedBy(MappedAfter(mapped, ops[0]), ops[1..])
  }

  /** A frame is free whenever a page is to be mapped that is not mapped yet; unmapping gives frames back. */
  predicate Supplied(mapped: set<nat>, free: int, ops: seq<PageOp>)
    decreases |ops|
  {
    ops == [] || (
      && (ops[0].Map? && PageOf(ops[0]) !in mapped ==> free > 0)
      && Supplied(MappedAfter(mapped, ops[0]), free + |mapped| - |MappedAfter(mapped, ops[0])|, ops[1..]))
  }

  /** The run names addresses, and unmaps no page that is to be kept. */
  predicate Spares(kept: set<nat>, ops: seq<PageOp>) {
    forall i :: 0 <= i < |ops| ==> ops[i].vaddr < ADDRESS_SPACE && (ops[i].Unmap? ==> PageOf(ops[i]) !in kept)
  }

  /** Every page outside the kept ones has one of the allocator's frames, and has it to itself. */
  ghost predicate Owned(pages: map<nat, nat>, kept: set<nat>, total: nat) {
    forall p: nat :: p in pages && p !in kept ==> Private(pages, p) && pages[p] < total
  }

  /** The linear kernel pages are kept once paging is on. */
  ghost predicate KeepsKernel(vm: KernelSpace, kept: set<nat>)
    reads vm`enabled
  {
    vm.enabled ==> forall p: nat :: BASE_PAGE <= p < BASE_PAGE + LINEAR_PAGES ==> p in kept
  }

  lemma MapOwned(was: map<nat, nat>, now: map<nat, nat>, kept: set<nat>, total: nat, p: nat)
    requires Owned(was, kept, total) && Extension(was, now) && now.Keys == was.Keys + {p}
    requires p !in was ==> now[p] < total
    ensures Owned(now, kept, total)
  {
    hide Private;
  }

  lemma UnmapOwned(was: map<nat, nat>, kept: set<nat>, total: nat, p: nat)
    requires Owned(was, kept, total)
    ensures Owned(was - {p}, kept, total)
  {
    PrivateStays(was, p);
  }

  /** One step, with what it does to pages and free frames together. */
  method Step(vm: KernelSpace, op: PageOp, ghost kept: set<nat>)
    requires vm.Valid() && vm.Sound() && vm.Exact() && Owned(vm.pages, kept, vm.pmm.totalBlocks) && KeepsKernel(vm, kept)
    requires op.vaddr < ADDRESS_SPACE && (op.Unmap? ==> PageOf(op) !in kept)
    requires op.Map? && PageOf(op) !in vm.pages ==> vm.pmm.Free() != {}
    modifies vm`tempMem, vm`pages, vm`Repr, vm.Repr
    ensures vm.Valid() && vm.Sound() && vm.Exact() && fresh(vm.Repr - old(vm.Repr)) && old(vm.Repr) <= vm.Repr
    ensures Owned(vm.pages, kept, vm.pmm.totalBlocks) && vm.pages.Keys == MappedAfter(old(vm.pages).Keys, op)
    ensures forall p :: p in old(vm.pages) && p in vm.pages ==> vm.pages[p] == old(vm.pages)[p]
    ensures |vm.pmm.Free()| == |old(vm.pmm.Free())| + |old(vm.pages).Keys| - |vm.pages.Keys|
  {
    hide KernelSpace.Valid, KernelSpace.Sound, KernelSpace.Covered, NoLeak, Owned, Private, Pmm.Free, Pmm.Taken;
    ghost var was, free, taken := vm.pages, vm.pmm.Free(), vm.pmm.Taken();
    var page := op.vaddr / PAGE_SIZE;
    vm.NotInRepr();
    FreeIs(vm.pmm);
    if op.Map? {
      Same(was);
      vm.MapPage(op.vaddr, was);
      OldPages(was, vm.pages);
      MapOwned(was, vm.pages, kept, vm.pmm.totalBlocks, page);
      CountMap(was, vm.pages, free, vm.pmm.Free(), page);
    } else {
      if page in was { OwnedIs(was, kept, vm.pmm.totalBlocks, page); }
      vm.EnoughBits();
      vm.CoveredIs();
      FreeIs(vm.pmm);
      vm.FreePage(op.vaddr, true);
      FreeIs(vm.pmm);
      UnmapOwned(was, kept, vm.pmm.totalBlocks, page);
      CountUnmap(was, free, vm.pmm.Free(), taken, vm.pmm.Taken(), vm.pmm.totalBlocks, page);
    }
  }

  /** Any run on private pages, from any state in which bitmap and page tables agree: they agree at the end, kept pages keep
      their frames, all others have theirs to themselves, and free frames and mapped pages add up to what they did. */
  method Run(vm: KernelSpace, ops: seq<PageOp>, ghost kept: set<nat>)
    requires vm.Valid() && vm.Sound() && vm.Exact() && Owned(vm.pages, kept, vm.pmm.totalBlocks) && KeepsKernel(vm, kept)
    requires Spares(kept, ops) && Supplied(vm.pages.Keys, |vm.pmm.Free()|, ops)
    modifies vm`tempMem, vm`pages, vm`Repr, vm.Repr
    ensures vm.Valid() && vm.Sound() && vm.Exact() && fresh(vm.Repr - old(vm.Repr)) && old(vm.Repr) <= vm.Repr
    ensures Owned(vm.pages, kept, vm.pmm.totalBlocks) && vm.pages.Keys == MappedBy(old(vm.pages).Keys, ops)
    ensures forall p :: p in old(vm.pages) && p in kept ==> p in vm.pages && vm.pages[p] == old(vm.pages)[p]
    ensures |vm.pmm.Free()| + |vm.pages.Keys| == |old(vm.pmm.Free())| + |old(vm.pages).Keys|
    decreases |ops|
  {
    hide KernelSpace.Valid, KernelSpace.Sound, KernelSpace.Exact, Owned, Pmm.Free, Supplied, Spares, MappedBy, MappedAfter;
    FirstOp(vm.pages.Keys, |vm.pmm.Free()|, kept, ops);
    if ops != [] {
      vm.NotInRepr();
      ghost var was := vm.pages;
      Step(vm, ops[0], kept);
      vm.NotInRepr();
      KeptAfter(was.Keys, kept, ops[0]);
      assert forall p :: p in was && p in kept ==> p in vm.pages.Keys;
      Run(vm, ops[1..], kept);
    }
  }

  lemma FirstOp(mapped: set<nat>, free: int, kept: set<nat>, ops: seq<PageOp>)
    requires Spares(kept, ops) && Supplied(mapped, free, ops)
    ensures ops == [] ==> MappedBy(mapped, ops) == mapped
    ensures ops != [] ==> var now := MappedAfter(mapped, ops[0]);
      && ops[0].vaddr < ADDRESS_SPACE && (ops[0].Unmap? ==> PageOf(ops[0]) !in kept)
      && (ops[0].Map? && PageOf(ops[0]) !in mapped ==> free > 0)
      && Spares(kept, ops[1..]) && Supplied(now, free + |mapped| - |now|, ops[1..])
      && MappedBy(mapped, ops) == MappedBy(now, ops[1..])
  {
  }

  lemma KeptAfter(mapped: set<nat>, kept: set<nat>, op: PageOp)
    requires op.Unmap? ==> PageOf(op) !in kept
    ensures forall p :: p in mapped && p in kept ==> p in MappedAfter(mapped, op)
  {
  }

  lemma OldPages(was: map<nat, nat>, now: map<nat, nat>)
    requires Extension(was, now)
    ensures forall p :: p in was ==> p in now && now[p] == was[p]
  {
  }

  lemma FreeIs(pmm: Pmm)
    ensures forall f: nat :: f in pmm.Free() <==> f < pmm.totalBlocks && f !in pmm.Taken()
  {
  }

  lemma CountMap(was: map<nat, nat>, now: map<nat, nat>, free: set<nat>, free': set<nat>, p: nat)
    requires now.Keys == was.Keys + {p} && (p in was ==> free' == free)
    requires p !in was ==> now[p] in free && free' == free - {now[p]}
    ensures |free'| == |free| + |was.Keys| - |now.Keys|
  {
    if p in was { assert now.Keys == was.Keys; }
  }

  lemma CountUnmap(was: map<nat, nat>, free: set<nat>, free': set<nat>, taken: set<nat>, taken': set<nat>, total: nat, p: nat)
    requires was.Values !! free && (p in was ==> was[p] < total) && taken' == taken - if p in was then {was[p]} else {}
    requires forall f: nat :: f in free <==> f < total && f !in taken
    requires forall f: nat :: f in free' <==> f < total && f !in taken'
    ensures |free'| == |free| + |was.Keys| - |(was - {p}).Keys|
  {
    KeysWithout(was, p);
    if p in was {
      assert was[p] in was.Values && was[p] !in free;
      assert free' == free + {was[p]};
    } else {
      assert free' == free;
    }
  }

  lemma KeysWithout(m: map<nat, nat>, p: nat)
    ensures |(m - {p}).Keys| == |m.Keys| - if p in m then 1 else 0
  {
    assert (m - {p}).Keys == m.Keys - {p};
  }

  lemma OwnedIs(m: map<nat, nat>, kept: set<nat>, total: nat, p: nat)
    requires Owned(m, kept, total) && p !in kept && p in m
    ensures Private(m, p) && m[p] < total
  {
  }
}
