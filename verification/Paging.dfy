/** The kernel's two-level page table, its heap break, and the memory they are built from
    (src/mem/paging.c, src/Include/paging.h). */
module Paging {
  import opened Frames

  const PAGE_SIZE := 4096
  const KERNEL_BASE := 0xC000_0000
  const BASE_PAGE := KERNEL_BASE / PAGE_SIZE
  const ENTRIES := 1024
  const PAGES := ENTRIES * ENTRIES
  const DIR_BYTES := 8192                       // sizeof(page_directory_t)
  const TABLE_BYTES := 4096                     // sizeof(page_table_t)
  const LINEAR_PAGES := (4 + 48) * 1024 * 1024 / PAGE_SIZE
  const KERNEL_TABLE := BASE_PAGE / ENTRIES
  const ADDRESS_SPACE := 0x1_0000_0000

  datatype Pte = Pte(present: bool, rw: bool, user: bool, frame: nat)

  /** One of the 1024 slots of the directory: the entry the processor reads, the kernel's pointer to the
      table, and that pointer's value as a virtual address. */
  datatype Slot = Slot(present: bool, rw: bool, user: bool, frame: nat, table: array?<Pte>, addr: nat)

  /** The first page boundary above an address. */
  function PageAlign(a: nat): (r: nat)
    ensures r % 4096 == 0 && a < r <= a + 4096
  {
    a / PAGE_SIZE * PAGE_SIZE + PAGE_SIZE
  }

  /** IS_ALIGN as written: it ors with the mask instead of and-ing, so no address passes. */
  predicate IsAlign(a: bv32) { a | 0xFFFF_F000 == 0 }

  lemma NothingIsAligned(a: bv32)
    ensures !IsAlign(a)
  {
  }

  lemma {:induction false} ManyAtLeast(s: set<int>, lo: nat, n: nat)
    requires forall f: int :: lo <= f < lo + n ==> f in s
    ensures |s| >= n
  {
    if n > 0 {
      ManyAtLeast(s - {lo + n - 1}, lo, n - 1);
    }
  }

  /** Page p has its frame to itself. */
  ghost predicate Private(m: map<nat, nat>, p: nat) {
    p in m && forall q :: q in m && q != p ==> m[q] != m[p]
  }

  /** Old pages keep their frames and their privacy; every page that is new has its frame to itself. */
  ghost predicate Extension(was: map<nat, nat>, now: map<nat, nat>) {
    && (forall p :: p in was ==> p in now && now[p] == was[p])
    && (forall p :: p in now && (p !in was || Private(was, p)) ==> Private(now, p))
  }

  /** A free frame, given to a new page, is private to it, and takes no page's privacy away. */
  lemma AddPage(first: map<nat, nat>, m: map<nat, nat>, free: set<nat>, p: nat, f: nat)
    requires p !in m && f in free && m.Values !! free && Extension(first, m)
    ensures m[p := f].Values == m.Values + {f} && m[p := f].Values !! free - {f}
    ensures Extension(first, m[p := f])
  {
    var m' := m[p := f];
    assert m'[p] == f;
    forall v | v in m.Values ensures v in m'.Values {
      var q :| q in m && m[q] == v;
      assert m'[q] == v;
    }
    forall q | Private(m, q) ensures Private(m', q) {
      assert m[q] in m.Values;
    }
    assert Private(m', p) by {
      assert forall q :: q in m ==> m[q] in m.Values;
    }
  }

  /** No page uses a managed frame whose bit is clear. */
  ghost predicate Clear(m: map<nat, nat>, taken: set<nat>, total: nat) { forall p :: p in m && m[p] < total ==> m[p] in taken }

  /** Giving back the frame of a page leaves no page on a free frame exactly when no other page uses that frame,
      or the frame is none of the allocator's. */
  lemma DropPage(m: map<nat, nat>, taken: set<nat>, total: nat, p: nat)
    requires p in m && Clear(m, taken, total)
    ensures Clear(m - {p}, taken - {m[p]}, total) <==> m[p] >= total || Private(m, p)
  {
    if m[p] < total && !Private(m, p) {
      var q :| q in m && q != p && m[q] == m[p];
      assert (m - {p})[q] == m[p];
    }
  }

  lemma FewerPages(m: map<nat, nat>, taken: set<nat>, total: nat, p: nat)
    requires Clear(m, taken, total)
    ensures Clear(m - {p}, taken, total)
  {
  }

  lemma PrivateStays(m: map<nat, nat>, p: nat)
    ensures forall q :: q != p && Private(m, q) ==> Private(m - {p}, q)
  {
  }

  /** Every other frame that is taken is still some page's. */
  lemma DropLeaksNothing(m: map<nat, nat>, taken: set<nat>, total: nat, p: nat)
    requires p in m && NoLeak(m, taken, total)
    ensures NoLeak(m - {p}, taken - {m[p]}, total)
  {
    forall v | v in taken && v < total && v != m[p] ensures v in (m - {p}).Values {
      var q :| q in m && m[q] == v;
      assert q in m - {p} && (m - {p})[q] == v;
    }
  }

  ghost predicate NoLeak(m: map<nat, nat>, taken: set<nat>, total: nat) {
    forall f :: f in taken && f < total ==> f in m.Values
  }

  /** The unmapped pages of a region have been mapped: to themselves, or to free frames. Page 0 cannot be
      mapped to frame 0 on request; it gets the lowest free frame. */
  ghost predicate RegionMap(was: map<nat, nat>, free: set<nat>, now: map<nat, nat>, from: nat, to: nat, identity: bool) {
    && (forall p: nat :: p in now <==> p in was || from <= p < to)
    && (forall p: nat :: p in was ==> now[p] == was[p])
    && (forall p: nat :: p in now && p !in was ==>
          if identity && p != 0 then now[p] == p else now[p] in free && (p == 0 ==> forall k :: k in free ==> now[0] <= k))
  }

  /** The only pages on free frames are identity mapped pages of the region. */
  ghost predicate Strays(m: map<nat, nat>, was: map<nat, nat>, free: set<nat>, identity: bool) {
    forall q :: q in m && m[q] in free ==> identity && q !in was && q != 0 && m[q] == q
  }

  lemma StraysStep(m: map<nat, nat>, was: map<nat, nat>, free: set<nat>, now: map<nat, nat>, free': set<nat>, identity: bool, p: nat, f: nat)
    requires Strays(m, was, free, identity) && was.Keys <= m.Keys
    requires if p in m then now == m && free' == free
      else now == m[p := f] && if identity && p != 0 then f == p && free' == free else free' == free - {f}
    ensures Strays(now, was, free', identity)
  {
  }

  lemma RegionStart(was: map<nat, nat>, free: set<nat>, from: nat, to: nat, identity: bool)
    ensures RegionMap(was, free, was, from, from, identity)
    ensures to <= from ==> RegionMap(was, free, was, from, to, identity)
  {
  }

  lemma RegionStep(was: map<nat, nat>, free: set<nat>, m: map<nat, nat>, now: map<nat, nat>, from: nat, p: nat, identity: bool, f: nat)
    requires RegionMap(was, free, m, from, p, identity) && from <= p
    requires p in m ==> now == m
    requires p !in m ==> now == m[p := f]
    requires p !in m ==> if identity && p != 0 then f == p else f in free
    requires p == 0 && p !in m ==> forall k :: k in free ==> f <= k
    ensures RegionMap(was, free, now, from, p + 1, identity)
  {
  }

  /** Tables lie page-aligned behind the directory, below the bump pointer and apart from each other, and
      every directory entry names the physical frame of its table. */
  ghost predicate PlacedIn(slots: seq<Slot>, dirAddr: nat, tempMem: nat) {
    && KERNEL_BASE <= dirAddr && dirAddr % PAGE_SIZE == 0 && dirAddr + DIR_BYTES <= PageAlign(tempMem)
    && (forall i :: 0 <= i < |slots| ==> (slots[i].present <==> slots[i].table != null))
    && (forall i :: 0 <= i < |slots| && slots[i].present ==>
          && dirAddr + DIR_BYTES <= slots[i].addr && slots[i].addr + TABLE_BYTES <= PageAlign(tempMem)
          && slots[i].frame * PAGE_SIZE == slots[i].addr - KERNEL_BASE)
    && (forall i, j :: 0 <= i < j < |slots| && slots[i].present && slots[j].present ==> slots[i].addr != slots[j].addr)
  }

  lemma PlaceNext(slots: seq<Slot>, dirAddr: nat, tempMem: nat, i: nat, s: Slot)
    requires PlacedIn(slots, dirAddr, tempMem) && i < |slots| && s.present && s.table != null
    requires s.addr == PageAlign(tempMem) && s.frame * PAGE_SIZE == s.addr - KERNEL_BASE
    ensures PlacedIn(slots[i := s], dirAddr, tempMem + TABLE_BYTES)
  {
    assert PageAlign(tempMem + TABLE_BYTES) == PageAlign(tempMem) + TABLE_BYTES;
  }

  lemma {:induction false} Interval(s: set<int>, n: nat)
    requires forall i :: i in s <==> 0 <= i < n
    ensures |s| == n
  {
    if n == 0 {
      assert forall i :: i !in s;
    } else {
      Interval(s - {n - 1}, n - 1);
    }
  }

  /** The directory entry of an address. */
  function TableOf(vaddr: nat): nat { vaddr / PAGE_SIZE / ENTRIES }

  lemma TableOrder(a: nat, b: nat, c: nat)
    requires a <= b <= c
    ensures TableOf(a) <= TableOf(b) <= TableOf(c)
  {
  }

  lemma InTables(low: nat, a: nat, high: nat)
    requires low / PAGE_SIZE <= a / PAGE_SIZE <= high / PAGE_SIZE
    ensures TableOf(low) <= TableOf(a) <= TableOf(high)
  {
  }

  /** What a heap holds of the machine: its mapping, the room it could grow into, and the tables not made yet. */
  datatype Holding = Holding(pages: map<nat, nat>, room: nat, missing: set<int>, enabled: bool, exact: bool)

  /** Old pages stay, new ones are private, no more frames are used up than pages are mapped, tables are made only for
      addresses from low to high, and the bitmap stays exact. */
  ghost predicate GrowsTo(was: Holding, now: Holding, low: nat, high: nat) {
    && Extension(was.pages, now.pages) && was.room <= now.room && was.enabled == now.enabled && (was.exact ==> now.exact)
    && forall i :: i in was.missing && !(TableOf(low) <= i <= TableOf(high)) ==> i in now.missing
  }

  lemma GrowsTwice(a: Holding, b: Holding, c: Holding, low: nat, high: nat)
    requires GrowsTo(a, b, low, high) && GrowsTo(b, c, low, high)
    ensures GrowsTo(a, c, low, high)
  {
  }

  lemma Same(m: map<nat, nat>)
    ensures Extension(m, m)
  {
  }

  lemma TakenInUse(m: map<nat, nat>, taken: set<nat>, total: nat, p: nat, f: nat)
    requires p !in m
    ensures NoLeak(m, taken, total) ==> NoLeak(m[p := f], taken + {f}, total)
  {
    var m' := m[p := f];
    assert m'[p] == f && f in m'.Values;
    forall v | v in m.Values ensures v in m'.Values {
      var q :| q in m && m[q] == v;
      assert m'[q] == v;
    }
  }

  lemma RegionKeeps(was: map<nat, nat>, free: set<nat>, now: map<nat, nat>, from: nat, to: nat, identity: bool)
    requires RegionMap(was, free, now, from, to, identity)
    ensures was.Keys <= now.Keys
  {
  }

  lemma NoStrays(m: map<nat, nat>, free: set<nat>, identity: bool)
    requires m.Values !! free
    ensures Strays(m, m, free, identity)
  {
    assert forall q :: q in m ==> m[q] in m.Values;
  }

  lemma StraysAre(was: map<nat, nat>, first: set<nat>, now: map<nat, nat>, free: set<nat>, from: nat, to: nat, identity: bool)
    requires RegionMap(was, first, now, from, to, identity) && Strays(now, was, free, identity)
    ensures now.Values !! free <==> !identity || forall p: nat :: from <= p < to && p != 0 && p !in was ==> p !in free
  {
    if identity && now.Values !! free {
      forall p: nat | from <= p < to && p != 0 && p !in was
        ensures p !in free
      {
        assert p in now && now[p] == p && now[p] in now.Values;
      }
    }
  }

  /** Frame f is the frame of a page of the region. */
  ghost predicate Freed(m: map<nat, nat>, from: nat, to: nat, f: nat) { exists p :: p in m && from <= p < to && m[p] == f }

  lemma FreedLeakNothing(was: map<nat, nat>, taken: set<nat>, now: map<nat, nat>, taken': set<nat>, total: nat, from: nat, to: nat)
    requires NoLeak(was, taken, total) && Removed(was, taken, now, taken', from, to)
    ensures NoLeak(now, taken', total)
  {
    forall f | f in taken' && f < total ensures f in now.Values {
      var p :| p in was && was[p] == f;
      assert p in now && now[p] == f;
    }
  }

  /** Exactly the pages from `from` up to `to` are gone, and exactly their frames are no longer taken. */
  ghost predicate Removed(was: map<nat, nat>, taken: set<nat>, now: map<nat, nat>, taken': set<nat>, from: nat, to: nat) {
    && (forall p: nat :: p in now <==> p in was && !(from <= p < to))
    && (forall p: nat :: p in now ==> now[p] == was[p])
    && (forall f :: f in taken' <==> f in taken && !Freed(was, from, to, f))
  }

  lemma RemovedNone(was: map<nat, nat>, taken: set<nat>, from: nat, to: nat)
    requires to <= from
    ensures Removed(was, taken, was, taken, from, to)
  {
  }

  lemma RemovedStep(was: map<nat, nat>, taken: set<nat>, m: map<nat, nat>, t: set<nat>, m': map<nat, nat>, t': set<nat>, from: nat, p: nat)
    requires Removed(was, taken, m, t, from, p) && from <= p
    requires m' == m - {p} && t' == t - if p in m then {m[p]} else {}
    ensures Removed(was, taken, m', t', from, p + 1)
  {
    hide Freed;
    FreedStep(was, from, p);
  }

  lemma RemovedBound(was: map<nat, nat>, taken: set<nat>, m: map<nat, nat>, t: set<nat>, from: nat, p: nat)
    requires Removed(was, taken, m, t, from, p)
    ensures forall q: nat :: q in m ==> q in was && m[q] == was[q]
  {
  }

  lemma FreedStep(m: map<nat, nat>, from: nat, p: nat)
    requires from <= p
    ensures forall f :: Freed(m, from, p + 1, f) <==> Freed(m, from, p, f) || (p in m && f == m[p])
  {
    forall f
      ensures Freed(m, from, p + 1, f) <==> Freed(m, from, p, f) || (p in m && f == m[p])
    {
      if Freed(m, from, p, f) {
        var q :| q in m && from <= q < p && m[q] == f;
        assert Freed(m, from, p + 1, f);
      }
    }
  }

  lemma PageAfter(a: nat)
    requires a % PAGE_SIZE == 0
    ensures (a + PAGE_SIZE) % PAGE_SIZE == 0 && (a + PAGE_SIZE) / PAGE_SIZE == a / PAGE_SIZE + 1
  {
  }

  lemma RoundedUp(a: nat, r: nat)
    requires r % PAGE_SIZE == 0 && a <= r < a + PAGE_SIZE
    ensures r == (a + PAGE_SIZE - 1) / PAGE_SIZE * PAGE_SIZE
  {
  }

  /** Unsigned 32-bit addition. */
  function Sum32(a: nat, b: nat): nat { (a + b) % ADDRESS_SPACE }

  /** The pages of a region that are not mapped yet. */
  ghost function Unmapped(m: map<nat, nat>, from: nat, to: nat): set<nat> { set p: nat | from <= p < to && p !in m }

  lemma UnmappedStep(m: map<nat, nat>, p: nat, to: nat)
    requires p < to
    ensures |Unmapped(m, p, to)| == |Unmapped(m, p + 1, to)| + if p in m then 0 else 1
  {
    assert Unmapped(m, p, to) == Unmapped(m, p + 1, to) + if p in m then {} else {p};
  }

  lemma UnmappedAfter(m: map<nat, nat>, now: map<nat, nat>, p: nat, to: nat)
    requires forall q: nat :: q in now <==> q in m || q == p
    ensures Unmapped(now, p + 1, to) == Unmapped(m, p + 1, to)
  {
  }

  /** What one page more does to the mapping and to the free frames. */
  lemma RegionTurn(was: map<nat, nat>, first: set<nat>, m: map<nat, nat>, now: map<nat, nat>, free: set<nat>, free': set<nat>,
                   from: nat, p: nat, identity: bool, f: nat)
    requires RegionMap(was, first, m, from, p, identity) && from <= p && free <= first && (p == from ==> free == first)
    requires if p in m then now == m && free' == free
      else now == m[p := f] && if identity && p != 0 then f == p && free' == free
        else f in free && free' == free - {f} && forall k :: k in free ==> f <= k
    ensures RegionMap(was, first, now, from, p + 1, identity) && now.Keys == m.Keys + {p}
    ensures free' <= free && |free'| >= |free| - if p in m then 0 else 1
    ensures Strays(m, was, free, identity) ==> Strays(now, was, free', identity)
  {
    hide RegionMap, Strays;
    OneFewer(free, free', f, p in m);
    RegionStep(was, first, m, now, from, p, identity, f);
    RegionKeeps(was, first, m, from, p, identity);
    if Strays(m, was, free, identity) { StraysStep(m, was, free, now, free', identity, p, f); }
  }

  lemma OneFewer(free: set<nat>, now: set<nat>, f: nat, kept: bool)
    requires now == free || (!kept && now == free - {f})
    ensures now <= free && |now| >= |free| - if kept then 0 else 1
  {
  }

  class KernelSpace {
    const pmm: Pmm
    const dir: array<Slot>
    const dirAddr: nat
    ghost const origin: nat                     // the bump pointer behind the page directory
    var tempMem: nat
    var enabled: bool
    var heapStart: nat
    var heapEnd: nat
    var heapMax: nat
    var heapCurr: nat
    ghost var pages: map<nat, nat>              // the partial map from pages to frames the tables stand for
    ghost var Repr: set<object>

    ghost predicate Valid()
      reads this`pages, this`Repr, Repr
    {
      && {pmm.bitmap, dir} <= Repr && this !in Repr
      && pmm.Valid()
      && dir.Length == ENTRIES && dir as object != pmm.bitmap
      && (forall i :: 0 <= i < ENTRIES && dir[i].table != null ==>
            dir[i].table in Repr && dir[i].table.Length == ENTRIES && dir[i].table as object != pmm.bitmap)
      && (forall i, j :: 0 <= i < j < ENTRIES && dir[i].table != null ==> dir[i].table != dir[j].table)
      && (forall p: nat :: p in pages ==> p < PAGES)
      && (forall i: nat, k: nat :: i < ENTRIES && k < ENTRIES ==> Shows(i, k))
    }

    /** Entry k of table i is present exactly when its page is mapped, and then holds the page's frame and lets everybody
        read and write; so does the directory entry of every table. Other entries hold frame 0. */
    ghost predicate Shows(i: nat, k: nat)
      requires i < dir.Length && (dir[i].table != null ==> k < dir[i].table.Length)
      reads this`pages, dir, dir[i].table
    {
      var p := i * ENTRIES + k;
      && (p in pages <==> dir[i].table != null && dir[i].table[k].present)
      && (p in pages ==> dir[i].table[k].frame == pages[p] < FRAME_LIMIT && dir[i].table[k].rw && dir[i].table[k].user)
      && (dir[i].table != null ==> dir[i].present && dir[i].rw && dir[i].user)
      && (dir[i].table != null && p !in pages ==> dir[i].table[k].frame == 0)
    }

    predicate Present(page: nat)
      requires Valid() && page < PAGES
      ensures Present(page) <==> page in pages
      reads this`pages, this`Repr, Repr
    {
      assert Shows(page / ENTRIES, page % ENTRIES);
      dir[page / ENTRIES].table != null && dir[page / ENTRIES].table[page % ENTRIES].present
    }

    /** No page uses a frame that the bitmap calls free. */
    ghost predicate Covered()
      reads this`pages, pmm.bitmap
    {
      pages.Values !! pmm.Free()
    }

    /** Among the frames the allocator manages, the set bits are exactly the frames in use. */
    ghost predicate Exact()
      reads this`pages, pmm.bitmap
    {
      Covered() && NoLeak(pages, pmm.Taken(), pmm.totalBlocks)
    }

    function FrameOf(page: nat): (frame: nat)
      requires Valid() && page < PAGES && page in pages
      reads this`pages, this`Repr, Repr
      ensures frame == pages[page]
    {
      assert Shows(page / ENTRIES, page % ENTRIES);
      dir[page / ENTRIES].table[page % ENTRIES].frame
    }

    function Virt2Phys(vaddr: nat): nat
      requires Valid() && vaddr < ADDRESS_SPACE
      reads this`enabled, this`pages, this`Repr, Repr
    {
      var page := vaddr / PAGE_SIZE;
      if !enabled then (vaddr + ADDRESS_SPACE - KERNEL_BASE) % ADDRESS_SPACE
      else if !Present(page) then 0
      else FrameOf(page) * PAGE_SIZE + vaddr % PAGE_SIZE
    }

    ghost function Missing(): set<int>
      reads dir
    {
      set i | 0 <= i < dir.Length && dir[i].table == null
    }

    /** Kernel page n shows frame n: the mapping that the address arithmetic before paging relies on. */
    ghost predicate Linear(n: nat)
      reads this`pages
    {
      forall p: nat :: BASE_PAGE <= p < BASE_PAGE + n ==> p in pages && pages[p] == p - BASE_PAGE
    }

    ghost predicate Placed()
      reads this`tempMem, dir
    {
      PlacedIn(dir[..], dirAddr, tempMem)
    }

    /** The bump allocator can still place every missing table in linearly mapped memory. */
    ghost predicate Roomy()
      reads this`tempMem, this`enabled, this`pages, dir
    {
      && KERNEL_BASE <= tempMem && tempMem + TABLE_BYTES * |Missing()| == origin + TABLE_BYTES * ENTRIES
      && PageAlign(tempMem) + TABLE_BYTES * |Missing()| <= KERNEL_BASE + LINEAR_PAGES * PAGE_SIZE
      && (enabled ==> Linear(LINEAR_PAGES))
    }

    ghost predicate Sound()
      reads this`tempMem, this`enabled, this`pages, dir
    {
      Placed() && Roomy()
    }

    /** The walk the processor does: from the frame in the directory entry to the table stored there. It may write, in
        user mode too, when both entries say so. */
    ghost predicate HardwareMaps(page: nat, frame: nat, write: bool, user: bool)
      requires Valid() && page < PAGES
      reads this`pages, this`Repr, Repr
    {
      && dir[page / ENTRIES].present
      && exists j :: 0 <= j < ENTRIES && dir[j].table != null
                     && dir[j].addr == KERNEL_BASE + dir[page / ENTRIES].frame * PAGE_SIZE
                     && dir[j].table[page % ENTRIES].present && dir[j].table[page % ENTRIES].frame == frame
                     && write == (dir[page / ENTRIES].rw && dir[j].table[page % ENTRIES].rw)
                     && user == (dir[page / ENTRIES].user && dir[j].table[page % ENTRIES].user)
    }

    /** The processor sees exactly the mapping that the kernel reads through its table pointers, and every mapped page may be
        read and written in kernel and user mode. */
    lemma HardwareAgrees(page: nat, frame: nat, write: bool, user: bool)
      requires Valid() && Placed() && page < PAGES
      ensures HardwareMaps(page, frame, write, user) <==> page in pages && pages[page] == frame && write && user
    {
      var i := page / ENTRIES;
      assert Shows(i, page % ENTRIES);
      assert dir[i] == dir[..][i];
      if dir[i].table != null {
        assert dir[i].addr == KERNEL_BASE + dir[i].frame * PAGE_SIZE;
      }
      forall j | 0 <= j < ENTRIES && dir[j].table != null && dir[i].table != null && dir[j].addr == dir[i].addr
        ensures j == i
      {
        assert dir[j] == dir[..][j];
      }
    }

    /** init_pmm, and init_paging up to the empty page directory. */
    constructor (memSize: nat, bitmapAddr: nat)
      requires memSize < ADDRESS_SPACE && KERNEL_BASE <= bitmapAddr < ADDRESS_SPACE - 0x10_0000
      ensures Valid() && fresh(Repr)
      ensures pages == map[] && pmm.Taken() == {} && pmm.totalBlocks == memSize / PAGE_SIZE && !enabled
      ensures tempMem == bitmapAddr + (memSize / PAGE_SIZE + 7) / 8 + DIR_BYTES
      ensures Placed() && |Missing()| == ENTRIES && origin == tempMem
      ensures forall i :: 0 <= i < ENTRIES ==> i in Missing()
    {
      var p := new Pmm(memSize);
      pmm := p;
      tempMem := bitmapAddr + p.bitmap.Length + DIR_BYTES;
      dirAddr := PageAlign(bitmapAddr + p.bitmap.Length);
      origin := bitmapAddr + p.bitmap.Length + DIR_BYTES;
      dir := new Slot[ENTRIES](_ => Slot(false, false, false, 0, null, 0));
      enabled := false;
      heapStart, heapEnd, heapMax, heapCurr := 0, 0, 0, 0;
      pages := map[];
      new;
      Repr := {pmm.bitmap, dir};
      Interval(Missing(), ENTRIES);
    }

    method DKmalloc(size: nat, align: bool) returns (ret: nat)
      requires Valid() && tempMem < ADDRESS_SPACE
      modifies this`tempMem
      ensures tempMem == old(tempMem) + size
      ensures ret == if align then PageAlign(old(tempMem)) else old(tempMem)
      ensures Valid()
    {
      ret := tempMem;
      if align && !IsAlign(ret as bv32) {
        ret := PageAlign(ret);
      }
      NothingIsAligned(tempMem as bv32);
      tempMem := tempMem + size;
    }

    /** With paging on, virt2phys of a mapped address is the place that the processor finds for it; of another it is 0. */
    lemma PhysIs(vaddr: nat)
      requires Valid() && Placed() && vaddr < 0x1_0000_0000 && enabled
      ensures vaddr / 4096 !in pages ==> Virt2Phys(vaddr) == 0
      ensures vaddr / 4096 in pages ==>
        HardwareMaps(vaddr / 4096, Virt2Phys(vaddr) / 4096, true, true) && Virt2Phys(vaddr) % 4096 == vaddr % 4096
    {
      if vaddr / 4096 in pages { HardwareAgrees(vaddr / 4096, pages[vaddr / 4096], true, true); }
    }

    lemma LinearPhys(addr: nat)
      requires Valid() && KERNEL_BASE <= addr < KERNEL_BASE + LINEAR_PAGES * PAGE_SIZE
      requires enabled ==> Linear(LINEAR_PAGES)
      ensures Virt2Phys(addr) == addr - KERNEL_BASE
    {
      if enabled {
        var p := addr / PAGE_SIZE;
        assert p in pages && pages[p] == p - BASE_PAGE;
      }
    }

    /** Points directory slot i at a fresh empty table. */
    method NewTable(i: nat)
      requires Valid() && Sound() && i < ENTRIES && dir[i].table == null
      modifies this`tempMem, this`Repr, dir
      ensures Valid() && fresh(Repr - old(Repr)) && old(Repr) <= Repr
      ensures pages == old(pages) && Sound()
      ensures dir[i].table != null && fresh(dir[i].table) && Missing() == old(Missing()) - {i}
      ensures forall j :: 0 <= j < ENTRIES && j != i ==> dir[j] == old(dir[j])
    {
      assert i in Missing() && |Missing() - {i}| == |Missing()| - 1;
      var addr := DKmalloc(TABLE_BYTES, true);
      LinearPhys(addr);
      var phys := Virt2Phys(addr);
      PlaceTable(i, addr, phys / PAGE_SIZE);
      assert Roomy() by {
        assert PageAlign(tempMem) == PageAlign(old(tempMem)) + TABLE_BYTES;
        assert pages == old(pages);
      }
      PlaceNext(old(dir[..]), dirAddr, old(tempMem), i, dir[..][i]);
    }

    method PlaceTable(i: nat, addr: nat, frame: nat)
      requires Valid() && i < ENTRIES && dir[i].table == null
      modifies this`Repr, dir
      ensures Valid() && fresh(Repr - old(Repr)) && old(Repr) <= Repr
      ensures pages == old(pages) && Missing() == old(Missing()) - {i}
      ensures dir[i].table != null && fresh(dir[i].table)
      ensures dir[..] == old(dir[..])[i := Slot(true, true, true, frame, dir[i].table, addr)]
    {
      var t := new Pte[ENTRIES](_ => Pte(false, false, false, 0));
      dir[i] := Slot(true, true, true, frame, t, addr);
      Repr := Repr + {t};
      forall j: nat, k: nat | j < ENTRIES && k < ENTRIES ensures Shows(j, k) {
        assert old(Shows(j, k));
      }
    }

    /** Writes one table entry. */
    method SetEntry(page: nat, e: Pte)
      requires Valid() && page < PAGES && dir[page / ENTRIES].table != null && e.frame < FRAME_LIMIT
      requires if e.present then e.rw && e.user else e.frame == 0
      modifies this`pages, dir[page / ENTRIES].table
      ensures Valid()
      ensures pages == if e.present then old(pages)[page := e.frame] else old(pages) - {page}
    {
      var t := dir[page / ENTRIES].table;
      t[page % ENTRIES] := e;
      pages := if e.present then pages[page := e.frame] else pages - {page};
      forall j: nat, k: nat | j < ENTRIES && k < ENTRIES ensures Shows(j, k) {
        assert old(Shows(j, k));
        assert j * ENTRIES + k == page <==> j == page / ENTRIES && k == page % ENTRIES;
      }
    }

    method TakeFrame() returns (frame: nat)
      requires Valid() && pmm.Free() != {}
      modifies pmm.bitmap
      ensures Valid()
      ensures frame in old(pmm.Free()) && forall k :: k in old(pmm.Free()) ==> frame <= k
      ensures pmm.Taken() == old(pmm.Taken()) + {frame} && pmm.Free() == old(pmm.Free()) - {frame}
    {
      frame := pmm.AllocBlock();
    }

    /** The frame that alloc_page gives to a page: the one asked for, or the lowest free one. */
    ghost predicate Chosen(free: set<nat>, asked: nat, frame: nat) {
      if asked != 0 then frame == asked else frame in free && forall k :: k in free ==> frame <= k
    }

    /** Fills an empty table entry. */
    method FillEntry(page: nat, frame: nat) returns (ghost f: nat)
      requires Valid() && Sound() && page < PAGES && frame < FRAME_LIMIT
      requires dir[page / ENTRIES].table != null && !Present(page)
      requires frame == 0 ==> pmm.Free() != {}
      modifies this`pages, pmm.bitmap, dir[page / ENTRIES].table
      ensures Valid() && Sound()
      ensures Chosen(old(pmm.Free()), frame, f) && pages == old(pages)[page := f]
      ensures pmm.Taken() == old(pmm.Taken()) + if frame == 0 then {f} else {}
    {
      var t := frame;
      if frame == 0 {
        t := TakeFrame();
      }
      f := t;
      SetEntry(page, Pte(true, true, true, t));
    }

    /** The page is mapped, and its entries in table and directory let everybody read and write. */
    ghost predicate Writable(page: nat)
      requires Valid() && page < PAGES
      reads this`pages, this`Repr, Repr
    {
      && page in pages && dir[page / ENTRIES].table != null
      && dir[page / ENTRIES].present && dir[page / ENTRIES].rw && dir[page / ENTRIES].user
      && dir[page / ENTRIES].table[page % ENTRIES].present
      && dir[page / ENTRIES].table[page % ENTRIES].rw && dir[page / ENTRIES].table[page % ENTRIES].user
    }

    /** That is so of every mapped page, whatever has been mapped and unmapped. */
    lemma AllWritable(page: nat)
      requires Valid() && page in pages
      ensures page < PAGES && Writable(page)
    {
      assert Shows(page / ENTRIES, page % ENTRIES);
    }

    /** Maps one page, unless it is mapped already. */
    method AllocPage(vaddr: nat, frame: nat) returns (ghost f: nat)
      requires Valid() && Sound() && vaddr < ADDRESS_SPACE && frame < FRAME_LIMIT
      requires frame == 0 && !Present(vaddr / PAGE_SIZE) ==> pmm.Free() != {}
      modifies this`tempMem, this`pages, this`Repr, Repr
      ensures Valid() && Sound() && fresh(Repr - old(Repr)) && old(Repr) <= Repr
      ensures vaddr / PAGE_SIZE in old(pages) ==> pages == old(pages) && pmm.Taken() == old(pmm.Taken())
      ensures vaddr / PAGE_SIZE !in old(pages) ==>
        && Chosen(old(pmm.Free()), frame, f)
        && pages == old(pages)[vaddr / PAGE_SIZE := f]
        && pmm.Taken() == old(pmm.Taken()) + if frame == 0 then {f} else {}
      ensures Writable(vaddr / PAGE_SIZE)
      ensures old(Missing()) - {TableOf(vaddr)} <= Missing()
    {
      hide Sound, Pmm.Free, Pmm.Taken, Shows;
      var page := vaddr / PAGE_SIZE;
      f := frame;
      EnsureTable(page / ENTRIES);
      if !Present(page) {
        f := FillEntry(page, frame);
      }
      AllWritable(page);
    }

    method EnsureTable(i: nat)
      requires Valid() && Sound() && i < ENTRIES
      modifies this`tempMem, this`Repr, dir
      ensures Valid() && fresh(Repr - old(Repr)) && old(Repr) <= Repr
      ensures pages == old(pages) && Sound()
      ensures dir[i].table != null && old(Missing()) - {i} <= Missing()
    {
      if dir[i].table == null {
        NewTable(i);
      }
    }

    /** Unmaps one page; `free` also returns its frame. Afterwards no page uses a free frame exactly when the frame
        was not given back, or no other page shared it, or it is not the allocator's. */
    method FreePage(vaddr: nat, free: bool)
      requires Valid() && vaddr < ADDRESS_SPACE
      requires free && vaddr / PAGE_SIZE in pages ==> pages[vaddr / PAGE_SIZE] < BPP * pmm.bitmap.Length
      modifies this`tempMem, this`pages, this`Repr, Repr
      ensures Valid() && Repr == old(Repr)
      ensures pages == old(pages) - {vaddr / PAGE_SIZE}
      ensures pmm.Taken() == old(pmm.Taken()) -
                if free && vaddr / PAGE_SIZE in old(pages) then {old(pages)[vaddr / PAGE_SIZE]} else {}
      ensures old(Covered()) ==> (Covered() <==>
        free && vaddr / PAGE_SIZE in old(pages) ==>
          Private(old(pages), vaddr / PAGE_SIZE) || old(pages)[vaddr / PAGE_SIZE] >= pmm.totalBlocks)
      ensures old(Exact()) && free ==> (Exact() <==> Covered())
      ensures forall q :: q != vaddr / PAGE_SIZE && Private(old(pages), q) ==> Private(pages, q)
      ensures old(Sound()) && (enabled ==> !(BASE_PAGE <= vaddr / PAGE_SIZE < BASE_PAGE + LINEAR_PAGES)) ==> Sound()
    {
      hide Valid, Pmm.Free, Pmm.Taken, Covered, Clear, NoLeak, Private, Sound;
      ghost var page, was, taken, total := vaddr / PAGE_SIZE, pages, pmm.Taken(), pmm.totalBlocks;
      NotInRepr();
      ClearIs();
      Unmap(vaddr / PAGE_SIZE, free);
      ClearIs();
      PrivateStays(was, page);
      if page !in was {
        assert pages == was && pmm.Taken() == taken;
      } else if free {
        if Clear(was, taken, total) { DropPage(was, taken, total, page); }
        if NoLeak(was, taken, total) { DropLeaksNothing(was, taken, total, page); }
      } else if Clear(was, taken, total) {
        FewerPages(was, taken, total, page);
      }
    }

    /** The body of free_page for a page. */
    method Unmap(page: nat, free: bool)
      requires Valid() && page < PAGES
      requires free && page in pages ==> pages[page] < BPP * pmm.bitmap.Length
      modifies this`pages, Repr
      ensures Valid() && pages == old(pages) - {page}
      ensures pmm.Taken() == old(pmm.Taken()) - if free && page in old(pages) then {old(pages)[page]} else {}
      ensures old(Sound()) && (enabled ==> !(BASE_PAGE <= page < BASE_PAGE + LINEAR_PAGES)) ==> Sound()
    {
      if dir[page / ENTRIES].table == null || !Present(page) {
        assert !Present(page);
        assert pages == pages - {page};
        return;
      }
      if free {
        ReturnFrame(FrameOf(page));
      }
      SetEntry(page, dir[page / ENTRIES].table[page % ENTRIES].(present := false, frame := 0));
    }

    method ReturnFrame(frame: nat)
      requires Valid() && frame < BPP * pmm.bitmap.Length
      modifies pmm.bitmap
      ensures Valid()
      ensures pmm.Taken() == old(pmm.Taken()) - {frame}
    {
      pmm.FreeBlock(frame);
    }

    ghost predicate MappedBelow(top: nat)
      reads this`heapStart, this`pages
    {
      forall p: nat :: heapStart / PAGE_SIZE <= p < top / PAGE_SIZE ==> p in pages
    }

    /** The heap lies on mapped pages up to heapEnd. */
    ghost predicate HeapMapped()
      reads this`heapStart, this`heapEnd, this`heapMax, this`heapCurr, this`pages
    {
      && heapStart <= heapCurr <= heapEnd < ADDRESS_SPACE
      && heapStart % PAGE_SIZE == 0 && heapEnd % PAGE_SIZE == 0
      && heapMax < ADDRESS_SPACE - PAGE_SIZE
      && MappedBelow(heapEnd)
    }

    /** How far the heap could be mapped with the frames that are free. */
    ghost function Room(): nat
      reads this`heapEnd, pmm.bitmap
    {
      heapEnd + PAGE_SIZE * |pmm.Free()|
    }

    /** Tables may have been made, but for addresses from `low` to `high` only. */
    ghost predicate NewTablesWithin(missing: set<int>, low: nat, high: nat)
      reads dir
    {
      forall i :: i in missing && !(TableOf(low) <= i <= TableOf(high)) ==> i in Missing()
    }

    ghost function Held(): Holding
      reads this, dir, pmm.bitmap
    {
      Holding(pages, Room(), Missing(), enabled, Exact())
    }

    /** What growing the heap may do. */
    ghost predicate Grew(was: Holding)
      reads this, dir, pmm.bitmap
    {
      GrowsTo(was, Held(), heapStart, heapMax)
    }

    lemma GrewNothing()
      ensures Grew(Held())
    {
    }

    /** Maps one page to a free frame, unless it is mapped already. */
    method MapPage(vaddr: nat, ghost first: map<nat, nat>)
      requires Valid() && Sound() && Covered() && vaddr < ADDRESS_SPACE
      requires vaddr / PAGE_SIZE !in pages ==> pmm.Free() != {}
      requires Extension(first, pages)
      modifies this`tempMem, this`pages, this`Repr, Repr
      ensures Valid() && Sound() && Covered() && fresh(Repr - old(Repr)) && old(Repr) <= Repr
      ensures Extension(first, pages) && Extension(old(pages), pages) && (old(Exact()) ==> Exact())
      ensures pages.Keys == old(pages).Keys + {vaddr / PAGE_SIZE}
      ensures vaddr / PAGE_SIZE in old(pages) ==> pmm.Free() == old(pmm.Free())
      ensures vaddr / PAGE_SIZE !in old(pages) ==>
        pages[vaddr / PAGE_SIZE] in old(pmm.Free()) && pmm.Free() == old(pmm.Free()) - {pages[vaddr / PAGE_SIZE]}
      ensures old(Missing()) - {TableOf(vaddr)} <= Missing()
    {
      hide Writable, Valid, Sound, Extension, NoLeak, Missing;
      ghost var was, free := pages, pmm.Free();
      ghost var page := vaddr / PAGE_SIZE;
      Same(was);
      ghost var f := AllocPage(vaddr, 0);
      if page !in was {
        AddPage(first, was, free, page, f);
        AddPage(was, was, free, page, f);
        assert pmm.Free() == free - {f};
        TakenInUse(was, old(pmm.Taken()), pmm.totalBlocks, page, f);
      }
    }

    method MapStep(runner: nat, ghost first: map<nat, nat>) returns (next: nat)
      requires Valid() && Sound() && Covered() && runner < ADDRESS_SPACE && pmm.Free() != {}
      requires Extension(first, pages) && runner % PAGE_SIZE == 0 && MappedBelow(runner)
      modifies this`tempMem, this`pages, this`Repr, Repr
      ensures Valid() && Sound() && Covered() && fresh(Repr - old(Repr)) && old(Repr) <= Repr
      ensures Extension(first, pages) && (old(Exact()) ==> Exact())
      ensures next == runner + PAGE_SIZE && next % PAGE_SIZE == 0 && MappedBelow(next)
      ensures |pmm.Free()| >= |old(pmm.Free())| - 1
      ensures old(Missing()) - {TableOf(runner)} <= Missing()
      ensures heapStart == old(heapStart) && heapEnd == old(heapEnd) && heapMax == old(heapMax)
    {
      hide Valid, Sound, Extension, Covered, Exact, Pmm.Free, Pmm.Taken, Missing;
      NotInRepr();
      PageAfter(runner);
      MapPage(runner, first);
      next := runner + PAGE_SIZE;
    }

    /** Maps the pages from heapEnd up to `boundary` and returns the new end. */
    method MapUpTo(boundary: nat) returns (runner: nat)
      requires Valid() && Sound() && Covered() && HeapMapped()
      requires heapEnd <= boundary <= heapMax && boundary <= Room()
      modifies this`tempMem, this`pages, this`Repr, Repr
      ensures Valid() && Sound() && Covered() && fresh(Repr - old(Repr)) && old(Repr) <= Repr
      ensures Extension(old(pages), pages) && (old(Exact()) ==> Exact())
      ensures runner % PAGE_SIZE == 0 && boundary <= runner < boundary + PAGE_SIZE && MappedBelow(runner)
      ensures old(Room()) <= runner + PAGE_SIZE * |pmm.Free()| && NewTablesWithin(old(Missing()), heapStart, heapMax)
    {
      Same(pages);
      hide Valid, Sound, Extension, Covered, Exact, Pmm.Free, Pmm.Taken, MappedBelow, Missing;
      runner := heapEnd;
      while runner < boundary
        invariant Valid() && Sound() && Covered() && fresh(Repr - old(Repr)) && old(Repr) <= Repr
        invariant Extension(old(pages), pages) && (old(Exact()) ==> Exact())
        invariant runner % PAGE_SIZE == 0 && heapEnd <= runner < boundary + PAGE_SIZE
        invariant old(Room()) <= runner + PAGE_SIZE * |pmm.Free()| && MappedBelow(runner)
        invariant NewTablesWithin(old(Missing()), heapStart, heapMax)
        decreases boundary - runner
      {
        NotInRepr();
        TableOrder(heapStart, runner, heapMax);
        runner := MapStep(runner, old(pages));
      }
    }

    /** Moves the break up by `size` and returns where it was, or 0 when the limit forbids it. The size is
        unsigned, so the branch that would shrink the heap cannot be taken; but a sum of 2^32 or more wraps around, and the
        break then moves down, out of the heap exactly when the sum is below its start. */
    method Ksbrk(size: nat) returns (ret: nat)
      requires Valid() && Sound() && Covered() && HeapMapped() && size < ADDRESS_SPACE
      requires var boundary := Sum32(heapCurr, size); heapEnd < boundary <= heapMax ==> boundary <= Room()
      modifies this, Repr
      ensures Valid() && Sound() && Covered() && fresh(Repr - old(Repr)) && old(Repr) <= Repr
      ensures HeapMapped() <==> heapStart <= heapCurr
      ensures Grew(old(Held()))
      ensures (enabled, heapStart, heapMax) == old((enabled, heapStart, heapMax))
      ensures var boundary := Sum32(old(heapCurr), size);
        if old(heapEnd) < boundary && heapMax < boundary then
          ret == 0 && heapCurr == old(heapCurr) && heapEnd == old(heapEnd) && pages == old(pages)
        else
          && ret == old(heapCurr) && heapCurr == boundary
          && (boundary < old(heapCurr) <==> old(heapCurr) + size >= ADDRESS_SPACE)
          && heapEnd == if boundary <= old(heapEnd) then old(heapEnd) else (boundary + PAGE_SIZE - 1) / PAGE_SIZE * PAGE_SIZE
    {
      Same(pages);
      NotInRepr();
      Wraps(heapCurr, size);
      hide Sum32, Valid, Sound, Extension, Covered, Exact, Pmm.Free, Pmm.Taken, Missing, MappedBelow;
      if size == 0 {
        return heapCurr;
      }
      var boundary := Sum32(heapCurr, size);
      ret := heapCurr;
      if boundary <= heapEnd {
        heapCurr := boundary;
      } else if boundary > heapMax {
        ret := 0;
      } else {
        GrowTo(boundary);
        heapCurr := boundary;
      }
    }

    lemma Wraps(a: nat, size: nat)
      requires a < ADDRESS_SPACE && size < ADDRESS_SPACE
      ensures Sum32(a, size) == if a + size < ADDRESS_SPACE then a + size else a + size - ADDRESS_SPACE
    {
    }

    method GrowTo(boundary: nat)
      requires Valid() && Sound() && Covered() && HeapMapped()
      requires heapEnd < boundary <= heapMax && boundary <= Room()
      modifies this`heapEnd, this`tempMem, this`pages, this`Repr, Repr
      ensures Valid() && Sound() && Covered() && HeapMapped() && fresh(Repr - old(Repr)) && old(Repr) <= Repr
      ensures Grew(old(Held()))
      ensures heapEnd == (boundary + PAGE_SIZE - 1) / PAGE_SIZE * PAGE_SIZE
    {
      hide Valid, Sound, Extension, Covered, Exact, Pmm.Free, Pmm.Taken, Missing, MappedBelow;
      var end := MapUpTo(boundary);
      NotInRepr();
      RoundedUp(boundary, end);
      heapEnd := end;
    }

    /** Exactly the first n kernel pages are mapped, to the first n frames, and no other frame is taken. */
    ghost predicate Prefix(n: nat)
      reads this`pages, pmm.bitmap
    {
      && (forall p: nat :: p in pages <==> BASE_PAGE <= p < BASE_PAGE + n)
      && (forall p: nat :: p in pages ==> pages[p] == p - BASE_PAGE)
      && (forall f: nat :: f in pmm.Taken() <==> f < n)
    }

    /** One page more: it gets the frame after the last one. */
    method MapNext(vaddr: nat)
      requires Valid() && Sound() && KERNEL_BASE <= vaddr < ADDRESS_SPACE && vaddr % PAGE_SIZE == 0
      requires Prefix(vaddr / PAGE_SIZE - BASE_PAGE) && vaddr / PAGE_SIZE - BASE_PAGE < pmm.totalBlocks
      modifies this`tempMem, this`pages, this`Repr, Repr
      ensures Valid() && Sound() && fresh(Repr - old(Repr)) && old(Repr) <= Repr
      ensures Prefix(vaddr / PAGE_SIZE + 1 - BASE_PAGE) && old(Missing()) - {TableOf(vaddr)} <= Missing()
    {
      hide Writable, Valid, Sound, Missing;
      assert vaddr / PAGE_SIZE - BASE_PAGE in pmm.Free();
      ghost var f := AllocPage(vaddr, 0);
    }

    /** The two loops of init_paging: page after page, each to the lowest free frame. */
    method MapKernel(from: nat, to: nat)
      requires Valid() && Sound() && KERNEL_BASE <= from <= to < ADDRESS_SPACE
      requires from % PAGE_SIZE == 0 && to % PAGE_SIZE == 0
      requires Prefix(from / PAGE_SIZE - BASE_PAGE) && to / PAGE_SIZE - BASE_PAGE <= pmm.totalBlocks
      modifies this`tempMem, this`pages, this`Repr, Repr
      ensures Valid() && Sound() && fresh(Repr - old(Repr)) && old(Repr) <= Repr
      ensures Prefix(to / PAGE_SIZE - BASE_PAGE) && NewTablesWithin(old(Missing()), from, to - 1)
    {
      hide Valid, Sound, Missing, Prefix;
      var i := from;
      while i < to
        invariant Valid() && Sound() && fresh(Repr - old(Repr)) && old(Repr) <= Repr
        invariant from <= i <= to && i % PAGE_SIZE == 0
        invariant Prefix(i / PAGE_SIZE - BASE_PAGE) && NewTablesWithin(old(Missing()), from, to - 1)
      {
        TableOrder(from, i, to - 1);
        PageAfter(i);
        MapNext(i);
        i := i + PAGE_SIZE;
      }
    }

    /** alloc_page, with what it does to the free frames. */
    method AllocCounted(vaddr: nat, frame: nat) returns (ghost f: nat)
      requires Valid() && Sound() && vaddr < ADDRESS_SPACE && frame < FRAME_LIMIT
      requires frame == 0 && !Present(vaddr / PAGE_SIZE) ==> pmm.Free() != {}
      modifies this`tempMem, this`pages, this`Repr, Repr
      ensures Valid() && Sound() && fresh(Repr - old(Repr)) && old(Repr) <= Repr
      ensures vaddr / PAGE_SIZE in old(pages) ==> pages == old(pages) && pmm.Taken() == old(pmm.Taken())
      ensures vaddr / PAGE_SIZE !in old(pages) ==>
        && Chosen(old(pmm.Free()), frame, f) && pages == old(pages)[vaddr / PAGE_SIZE := f]
        && pmm.Taken() == old(pmm.Taken()) + if frame == 0 then {f} else {}
      ensures pmm.Free() == old(pmm.Free()) - if vaddr / PAGE_SIZE !in old(pages) && frame == 0 then {f} else {}
      ensures old(Missing()) - {TableOf(vaddr)} <= Missing()
    {
      hide Writable, Valid, Sound, Missing;
      f := AllocPage(vaddr, frame);
    }

    /** One page of a region. */
    method RegionPage(start: nat, identity: bool, ghost was: map<nat, nat>, ghost first: set<nat>, ghost from: nat)
      requires Valid() && Sound() && start < ADDRESS_SPACE && from <= start / PAGE_SIZE
      requires (!identity || start / PAGE_SIZE == 0) && !Present(start / PAGE_SIZE) ==> pmm.Free() != {}
      requires pmm.Free() <= first && (start / PAGE_SIZE == from ==> pmm.Free() == first)
      requires RegionMap(was, first, pages, from, start / PAGE_SIZE, identity)
      modifies this`tempMem, this`pages, this`Repr, Repr
      ensures Valid() && Sound() && fresh(Repr - old(Repr)) && old(Repr) <= Repr
      ensures pmm.Free() <= old(pmm.Free()) && |pmm.Free()| >= |old(pmm.Free())| - if start / PAGE_SIZE in old(pages) then 0 else 1
      ensures pages.Keys == old(pages).Keys + {start / PAGE_SIZE}
      ensures RegionMap(was, first, pages, from, start / PAGE_SIZE + 1, identity)
      ensures old(Strays(pages, was, pmm.Free(), identity)) ==> Strays(pages, was, pmm.Free(), identity)
      ensures old(Missing()) - {TableOf(start)} <= Missing()
    {
      hide Valid, Sound, RegionMap, Strays, Pmm.Free, Pmm.Taken, Missing, Private, Covered, Chosen;
      ghost var m, free := pages, pmm.Free();
      var page := start / PAGE_SIZE;
      assert Present(page) <==> page in m;
      ghost var f := AllocCounted(start, if identity then page else 0);
      ChosenIs(free, if identity then page else 0, f);
      RegionTurn(was, first, m, pages, free, pmm.Free(), from, page, identity, f);
    }

    lemma ChosenIs(free: set<nat>, asked: nat, f: nat)
      ensures Chosen(free, asked, f) <==> if asked != 0 then f == asked else f in free && forall k :: k in free ==> f <= k
    {
    }

    /** Maps every page from startV to endV, both included, that is not mapped yet. Afterwards no page uses a free
        frame exactly when no page that was mapped to itself here has a number that is a free frame. */
    method AllocRegion(startV: nat, endV: nat, identity: bool)
      requires Valid() && Sound() && startV < ADDRESS_SPACE && endV < ADDRESS_SPACE - PAGE_SIZE
      requires !identity ==> |Unmapped(pages, startV / PAGE_SIZE, endV / PAGE_SIZE + 1)| <= |pmm.Free()|
      requires identity && startV / PAGE_SIZE == 0 && 0 !in pages ==> pmm.Free() != {}
      modifies this`tempMem, this`pages, this`Repr, Repr
      ensures Valid() && Sound() && fresh(Repr - old(Repr)) && old(Repr) <= Repr
      ensures pmm.Free() <= old(pmm.Free())
      ensures RegionMap(old(pages), old(pmm.Free()), pages, startV / PAGE_SIZE, endV / PAGE_SIZE + 1, identity)
      ensures old(Covered()) ==> (Covered() <==> !identity || forall p: nat ::
        startV / PAGE_SIZE <= p <= endV / PAGE_SIZE && p != 0 && p !in old(pages) ==> p !in pmm.Free())
      ensures NewTablesWithin(old(Missing()), startV, endV)
      ensures startV <= endV ==> |old(pmm.Free())| <= |pmm.Free()| + (endV / PAGE_SIZE + 1 - startV / PAGE_SIZE)
    {
      hide Valid, Sound, RegionMap, Covered, Strays, Missing;
      ghost var from, to := startV / PAGE_SIZE, endV / PAGE_SIZE + 1;
      ghost var was, first := pages, pmm.Free();
      RegionStart(was, first, from, to, identity);
      CoveredIs();
      if Covered() { NoStrays(pages, pmm.Free(), identity); }
      var start := startV / PAGE_SIZE * PAGE_SIZE;
      var end := endV / PAGE_SIZE * PAGE_SIZE;
      while start <= end
        invariant Valid() && Sound() && fresh(Repr - old(Repr)) && old(Repr) <= Repr
        invariant start % PAGE_SIZE == 0 && from <= start / PAGE_SIZE && (start / PAGE_SIZE <= to || to <= from == start / PAGE_SIZE)
        invariant !identity ==> |Unmapped(pages, start / PAGE_SIZE, to)| <= |pmm.Free()|
        invariant identity && start / PAGE_SIZE == 0 && 0 !in pages ==> pmm.Free() != {}
        invariant pmm.Free() <= first && |first| <= |pmm.Free()| + (start / PAGE_SIZE - from)
        invariant start / PAGE_SIZE == from ==> pmm.Free() == first
        invariant RegionMap(was, first, pages, from, start / PAGE_SIZE, identity)
        invariant to <= from ==> start / PAGE_SIZE == from && pages == was
        invariant old(Covered()) ==> Strays(pages, was, pmm.Free(), identity)
        invariant NewTablesWithin(old(Missing()), startV, endV)
        decreases end + PAGE_SIZE - start
      {
        PageAfter(start);
        InTables(startV, start, endV);
        UnmappedStep(pages, start / PAGE_SIZE, to);
        ghost var m := pages;
        RegionPage(start, identity, was, first, from);
        UnmappedAfter(m, pages, start / PAGE_SIZE, to);
        start := start + PAGE_SIZE;
      }
      if old(Covered()) {
        StraysAre(was, first, pages, pmm.Free(), from, to, identity);
        CoveredIs();
      }
    }

    lemma CoveredIs()
      ensures Covered() <==> pages.Values !! pmm.Free()
    {
    }

    /** Unmaps every page from startV to endV, both included, and gives all their frames back: the source ignores
        its own `free` argument. Afterwards no page uses a free frame exactly when no page outside the region shared
        one of the frames. */
    method FreeRegion(startV: nat, endV: nat, free: bool)
      requires Valid() && startV < ADDRESS_SPACE && endV < ADDRESS_SPACE - PAGE_SIZE
      requires forall p: nat :: p in pages && startV / PAGE_SIZE <= p <= endV / PAGE_SIZE ==> pages[p] < BPP * pmm.bitmap.Length
      modifies this`tempMem, this`pages, this`Repr, Repr
      ensures Valid() && Repr == old(Repr)
      ensures Removed(old(pages), old(pmm.Taken()), pages, pmm.Taken(), startV / PAGE_SIZE, endV / PAGE_SIZE + 1)
      ensures old(Covered()) ==> (Covered() <==> forall p :: p in pages && pages[p] < pmm.totalBlocks ==>
        !Freed(old(pages), startV / PAGE_SIZE, endV / PAGE_SIZE + 1, pages[p]))
      ensures old(Exact()) ==> (Exact() <==> Covered())
    {
      hide Valid, Covered, Freed, Clear, NoLeak, Removed, Pmm.Taken;
      ghost var from, to, was, taken := startV / PAGE_SIZE, endV / PAGE_SIZE + 1, pages, pmm.Taken();
      var start := startV / PAGE_SIZE * PAGE_SIZE;
      var end := endV / PAGE_SIZE * PAGE_SIZE;
      RemovedNone(was, taken, from, from);
      if to <= from { RemovedNone(was, taken, from, to); }
      ClearIs();
      while start <= end
        invariant Valid() && Repr == old(Repr)
        invariant start % PAGE_SIZE == 0 && from <= start / PAGE_SIZE && (start / PAGE_SIZE <= to || start / PAGE_SIZE == from)
        invariant Removed(was, taken, pages, pmm.Taken(), from, start / PAGE_SIZE)
        invariant start / PAGE_SIZE == from ==> pages == was && pmm.Taken() == taken
        decreases end + PAGE_SIZE - start
      {
        PageAfter(start);
        ghost var m, t := pages, pmm.Taken();
        RemovedBound(was, taken, m, t, from, start / PAGE_SIZE);
        FreePage(start, true);
        RemovedStep(was, taken, m, t, pages, pmm.Taken(), from, start / PAGE_SIZE);
        start := start + PAGE_SIZE;
      }
      if old(Covered()) {
        CoveredAfter(was, taken, from, to);
      }
      if NoLeak(was, taken, pmm.totalBlocks) {
        FreedLeakNothing(was, taken, pages, pmm.Taken(), pmm.totalBlocks, from, to);
      }
    }

    lemma ClearIs()
      ensures Covered() <==> Clear(pages, pmm.Taken(), pmm.totalBlocks)
    {
      if Covered() {
        assert forall p :: p in pages ==> pages[p] in pages.Values;
      }
    }

    /** Covered after a region's frames have been freed. */
    lemma CoveredAfter(was: map<nat, nat>, taken: set<nat>, from: nat, to: nat)
      requires Clear(was, taken, pmm.totalBlocks) && Removed(was, taken, pages, pmm.Taken(), from, to)
      ensures Covered() <==> forall p :: p in pages && pages[p] < pmm.totalBlocks ==> !Freed(was, from, to, pages[p])
    {
      hide Freed;
      ClearIs();
    }

    /** init_paging: the linear kernel mapping, then paging on, then the identity mapping of low memory.
        Switching paging on changes no translation of a linear address. Page 0 is not identity mapped:
        alloc_page reads its frame number 0 as a request for any free frame. */
    method InitPaging()
      requires Valid() && Sound() && Prefix(0) && !enabled && pmm.totalBlocks >= LINEAR_PAGES + 17
      modifies this`tempMem, this`pages, this`Repr, this`enabled, Repr
      ensures Valid() && Sound() && Covered() && fresh(Repr - old(Repr)) && old(Repr) <= Repr
      ensures enabled && Linear(LINEAR_PAGES)
      ensures forall p: nat :: p in pages <==> 0xC_0000 <= p < 0xC_3400 || p <= 16
      ensures forall p: nat :: 1 <= p <= 16 ==> p in pages && pages[p] == p
      ensures pages[0] == LINEAR_PAGES && |pmm.Free()| >= pmm.totalBlocks - LINEAR_PAGES - 17
      ensures forall i :: i in old(Missing()) && i != 0 && !(KERNEL_TABLE <= i < KERNEL_TABLE + 13) ==> i in Missing()
    {
      hide Valid, Sound, Missing;
      MapLinear();
      NotInRepr();
      EnoughFrames();
      assert LINEAR_PAGES in pmm.Free() && forall k :: k in pmm.Free() ==> LINEAR_PAGES <= k;
      AllocRegion(0x0, 0x10000, true);
    }

    /** The kernel image and the first 48 MB of the heap. */
    method MapLinear()
      requires Valid() && Sound() && Prefix(0) && pmm.totalBlocks >= LINEAR_PAGES + 17
      modifies this`tempMem, this`pages, this`Repr, this`enabled, Repr
      ensures Valid() && Sound() && fresh(Repr - old(Repr)) && old(Repr) <= Repr && enabled && Prefix(LINEAR_PAGES)
      ensures forall i :: i in old(Missing()) && !(KERNEL_TABLE <= i < KERNEL_TABLE + 13) ==> i in Missing()
    {
      hide Valid, Sound, Missing;
      MapKernel(KERNEL_BASE, KERNEL_BASE + 4 * 1024 * 1024);
      MapKernel(KERNEL_BASE + 4 * 1024 * 1024, KERNEL_BASE + LINEAR_PAGES * PAGE_SIZE);
      EnablePaging();
    }

    method EnablePaging()
      requires Valid() && Sound() && Linear(LINEAR_PAGES)
      modifies this`enabled
      ensures Valid() && Sound() && enabled
    {
      enabled := true;
    }

    /** As long as no more than `made` tables have been made, they all lie below `limit`. */
    lemma TablesBelow(made: nat, limit: nat)
      requires Valid() && Sound() && ENTRIES - |Missing()| <= made && PageAlign(origin) + TABLE_BYTES * made <= limit
      ensures forall i :: 0 <= i < ENTRIES && dir[i].table != null ==> dir[i].addr + TABLE_BYTES <= limit
      ensures PageAlign(tempMem) <= limit
    {
      assert PageAlign(tempMem) <= PageAlign(origin) + TABLE_BYTES * made;
      forall i | 0 <= i < ENTRIES && dir[i].table != null
        ensures dir[i].addr + TABLE_BYTES <= limit
      {
        assert dir[i] == dir[..][i];
      }
    }

    lemma EnoughBits()
      requires Valid()
      ensures pmm.totalBlocks <= BPP * pmm.bitmap.Length
    {
    }

    lemma NotInRepr()
      requires Valid()
      ensures this !in Repr
    {
    }

    lemma EnoughFrames()
      requires Prefix(LINEAR_PAGES) && pmm.totalBlocks >= LINEAR_PAGES + 17
      ensures |pmm.Free()| >= pmm.totalBlocks - LINEAR_PAGES
    {
      ManyAtLeast(pmm.Free(), LINEAR_PAGES, pmm.totalBlocks - LINEAR_PAGES);
    }
  }
}
