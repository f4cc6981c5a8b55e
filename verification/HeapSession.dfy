/** Runs of calls on the allocator itself: the methods of KernelHeap, called one after the other, move through exactly
    the states of HeapRuns, and what one caller holds outlasts whatever the others do. */
module HeapSession {
  import opened Paging
  import opened HeapModel
  import opened HeapProperties
  import opened HeapMemory
  import opened KernelHeap
  import opened HeapRuns

  type Lives = map<int, seq<int>>

  /** The size of the block that a call may need. */
  function Demand(op: Op): (d: int) { if op.Dispose? then 0 else Rounded(op.size) + OVERHEAD }

  /** The call has no free block to use, and goes to the break. */
  predicate Extending(st: State, op: Op)
    requires Allowed(st, op)
  {
    match op
    case Alloc(size) => Extends(st, size)
    case Dispose(ptr) => false
    case Resize(ptr, size) => ReallocExtends(st, ptr, size)
  }

  /** Then the new break is an address, and there are frames for it if it stays within the limit. */
  predicate Fits(st: State, op: Op, room: int)
    requires Allowed(st, op)
  {
    Extending(st, op) ==>
      && st.brk + Demand(op) < ADDRESS_SPACE
      && (st.brk + Demand(op) <= st.limit ==> st.brk + Demand(op) <= room)
  }

  lemma FitsMeans(h: Heap, op: Op)
    requires Allowed(h.Tiling(), op) && Fits(h.Tiling(), op, h.vm.Room())
    ensures Extending(h.Tiling(), op) ==> h.Backed(op.size)
  {
    hide Extends, ReallocExtends, KernelSpace.Room;
  }

  /** One call of malloc, free or realloc. */
  method Call(h: Heap, op: Op) returns (r: Outcome)
    requires h.Valid() && Allowed(h.Tiling(), op) && Fits(h.Tiling(), op, h.vm.Room())
    modifies h, h.mem, h.vm, h.vm.Repr
    ensures (h.Tiling(), r) == Step(old(h.Tiling()), op)
    ensures h.Laid() && (h.Valid() <==> !LosesTail(old(h.Tiling()), op))
    ensures Effect(op, r, old(h.LiveMap()), h.LiveMap()) && h.vm.Grew(old(h.vm.Held()))
    ensures fresh(h.vm.Repr - old(h.vm.Repr))
  {
    hide Heap.Laid, Heap.LiveMap, KernelSpace.Grew, KernelSpace.Held, KernelSpace.Room;
    hide HeapModel.Malloc, HeapModel.Realloc, Release, Effect, TailShrink, Has, Extends, ReallocExtends, Heap.Backed;
    h.vm.GrewNothing();
    FitsMeans(h, op);
    ApartFrom(h);
    match op
    case Alloc(size) =>
      r := h.Malloc(size);
    case Dispose(ptr) =>
      h.Free(ptr);
      r := Null;
    case Resize(ptr, size) =>
      r := h.Realloc(ptr, size);
  }

  lemma ApartFrom(h: Heap)
    requires h.Valid()
    ensures h.mem as object != h.vm.dir && h.mem as object != h.vm.pmm.bitmap
  {
    h.Elsewhere();
  }

  // ---- Runs of calls ----------------------------------------------------------------------------

  /** Every call of the run gets what HeapRuns asks of it, in the state that the calls before it lead to, and no call
      but the last loses the tail. */
  predicate Legal(st: State, ops: seq<Op>)
    decreases |ops|
  {
    ops == [] || (
      && Allowed(st, ops[0]) && (|ops| > 1 ==> !LosesTail(st, ops[0]))
      && Legal(Step(st, ops[0]).0, ops[1..]))
  }

  function Final(st: State, ops: seq<Op>): State
    requires Legal(st, ops)
    decreases |ops|
  {
    if ops == [] then st else Final(Step(st, ops[0]).0, ops[1..])
  }

  predicate Named(ops: seq<Op>, p: int) { exists i :: 0 <= i < |ops| && Names(ops[i], p) }

  /** Every call of the run that goes to the break finds addresses and frames for its block. Whatever is freed may be
      used again: there is no bound on what a run asks for in all. */
  predicate Fitting(st: State, ops: seq<Op>, room: int)
    requires Legal(st, ops)
    decreases |ops|
  {
    ops == [] || (Fits(st, ops[0], room) && Fitting(Step(st, ops[0]).0, ops[1..], room))
  }

  lemma {:induction false} MoreRoom(st: State, ops: seq<Op>, room: int, more: int)
    requires Legal(st, ops) && Fitting(st, ops, room) && room <= more
    ensures Fitting(st, ops, more)
    decreases |ops|
  {
    hide Allowed, Step, Extending;
    if ops != [] {
      MoreRoom(Step(st, ops[0]).0, ops[1..], room, more);
    }
  }

  // ---- Requests that always fit -----------------------------------------------------------------

  predicate Under(st: State, top: int) { st.brk <= top && st.mapped <= top && PageUp(st.limit) <= top }

  predicate SameBounds(st: State, st': State) { st'.base == st.base && st'.limit == st.limit }

  lemma MallocUnder(st: State, size: int, top: int)
    ensures var st' := HeapModel.Malloc(st, size).0; SameBounds(st, st') && (Under(st, top) ==> Under(st', top))
  {
    hide Has, Best;
    var up := st.brk + Rounded(size) + OVERHEAD;
    PageUpIs(st.limit);
    if up <= st.limit { PageUpOrder(up, st.limit); }
  }

  lemma PageUpIs(a: int)
    ensures a <= PageUp(a)
  {
  }

  lemma PageUpOrder(a: int, b: int)
    requires a <= b
    ensures PageUp(a) <= PageUp(b)
  {
  }

  lemma ReleaseUnder(st: State, a: int, top: int)
    requires Has(st.blocks, a, false)
    ensures var st' := Release(st, a); SameBounds(st, st') && (Under(st, top) ==> Under(st', top))
  {
    hide Has, Without;
  }

  lemma ReallocUnder(st: State, ptr: int, size: int, top: int)
    requires ptr == 0 || Has(st.blocks, ptr - HEADER, false)
    ensures var st' := HeapModel.Realloc(st, ptr, size).0; SameBounds(st, st') && (Under(st, top) ==> Under(st', top))
  {
    hide HeapModel.Malloc, Release, Has, PathOf, Without, PageUp;
    MallocUnder(st, size, top);
    if ptr != 0 {
      ReleaseUnder(st, ptr - HEADER, top);
      var st1 := HeapModel.Malloc(st, size).0;
      if Has(st1.blocks, ptr - HEADER, false) { ReleaseUnder(st1, ptr - HEADER, top); }
    }
  }

  lemma StepUnder(st: State, op: Op, top: int)
    requires Allowed(st, op)
    ensures var st' := Step(st, op).0; SameBounds(st, st') && (Under(st, top) ==> Under(st', top))
  {
    hide HeapModel.Malloc, HeapModel.Realloc, Release, Has, Under, SameBounds;
    match op
    case Alloc(size) => MallocUnder(st, size, top);
    case Dispose(ptr) => ReleaseUnder(st, ptr - HEADER, top);
    case Resize(ptr, size) => ReallocUnder(st, ptr, size, top);
  }

  /** With frames for the whole heap, every run of requests that are smaller than what is left of the address space above
      the heap fits, however long it is. */
  lemma {:induction false} SmallRequestsFit(st: State, ops: seq<Op>, room: int, top: int)
    requires Legal(st, ops) && Under(st, top) && st.limit <= room
    requires forall i :: 0 <= i < |ops| ==> top + Demand(ops[i]) < ADDRESS_SPACE
    ensures Fitting(st, ops, room)
    decreases |ops|
  {
    hide Allowed, Step, Extending, Demand, PageUp;
    if ops != [] {
      StepUnder(st, ops[0], top);
      SmallRequestsFit(Step(st, ops[0]).0, ops[1..], room, top);
    }
  }

  lemma StartIs(h: Heap)
    requires h.Laid()
    ensures h.vm.heapStart == h.base && h.Tiling().base == h.base && h.Tiling().limit == h.vm.heapMax
  {
    hide Tiled;
  }

  lemma ValidIs(h: Heap)
    requires h.Laid()
    ensures h.Formed() && (h.Valid() <==> Inv(h.Tiling()))
  {
    hide Tiled;
  }

  lemma GrewMeans(h: Heap, was: Holding)
    requires h.vm.Grew(was)
    ensures GrowsTo(was, h.vm.Held(), h.vm.heapStart, h.vm.heapMax)
  {
  }

  lemma HeldRoom(h: Heap)
    ensures h.vm.Held().room == h.vm.Room()
  {
  }

  lemma RoomStays(h: Heap, was: Holding, now: Holding)
    requires GrowsTo(was, now, h.vm.heapStart, h.vm.heapMax) && now == h.vm.Held()
    ensures was.room <= h.vm.Room()
  {
  }

  lemma GrewTwice(h: Heap, a: Holding, b: Holding, low: nat, high: nat)
    requires GrowsTo(a, b, low, high) && h.vm.Grew(b) && h.vm.heapStart == low && h.vm.heapMax == high
    ensures h.vm.Grew(a)
  {
    GrowsTwice(a, b, h.vm.Held(), low, high);
  }

  lemma ObservedCons(op: Op, ops: seq<Op>, r: Outcome, rs: seq<Outcome>, live: Lives, lives: seq<Lives>)
    requires Observed(ops, rs, lives) && Effect(op, r, live, lives[0])
    ensures Observed([op] + ops, [r] + rs, [live] + lives)
  {
    hide Effect;
    var o, q, l := [op] + ops, [r] + rs, [live] + lives;
    forall i, j | 0 <= i < |o| && j == i + 1
      ensures Effect(o[i], q[i], l[i], l[j])
    {
      if i > 0 { assert o[i] == ops[i - 1] && q[i] == rs[i - 1] && l[i] == lives[i - 1] && l[j] == lives[j - 1]; }
    }
  }

  /** Any run of calls in which every block taken from the break fits. The allocator goes through the states of the specification; what
      callers hold changes from call to call by the effects of the calls; and every pointer that no call names keeps all
      its bytes from the first call to the last. */
  method Calls(h: Heap, ops: seq<Op>) returns (rs: seq<Outcome>, ghost lives: seq<Lives>)
    requires h.Laid() && (ops != [] ==> h.Valid()) && Legal(h.Tiling(), ops) && Fitting(h.Tiling(), ops, h.vm.Room())
    modifies h, h.mem, h.vm, h.vm.Repr
    ensures h.Tiling() == Final(old(h.Tiling()), ops)
    ensures h.Laid() && (h.Valid() <==> Inv(h.Tiling()))
    ensures h.Formed() && old(h.Formed())
    ensures Observed(ops, rs, lives) && lives[0] == old(h.LiveMap()) && lives[|ops|] == h.LiveMap()
    ensures forall p :: p in old(h.LiveMap()) && !Named(ops, p) ==> p in h.LiveMap() && h.LiveMap()[p] == old(h.LiveMap())[p]
    ensures fresh(h.vm.Repr - old(h.vm.Repr)) && h.vm.Grew(old(h.vm.Held()))
    ensures (h.vm.heapStart, h.vm.heapMax) == old((h.vm.heapStart, h.vm.heapMax))
    decreases |ops|
  {
    hide Heap.Laid, Heap.Tiling, Heap.LiveMap, Heap.Valid, KernelSpace.Grew, KernelSpace.Held, KernelSpace.Room;
    hide Effect, Step, Allowed, Fits, LosesTail, Inv, Observed, Names;
    ValidIs(h);
    ghost var before, held := h.LiveMap(), h.vm.Held();
    h.vm.GrewNothing();
    if ops == [] {
      rs, lives := [], [before];
      assert Observed(ops, rs, lives) by { ObservedNothing(before); }
      return;
    }
    StartIs(h);
    HeldRoom(h);
    StepUnder(h.Tiling(), ops[0], 0);
    var r := Call(h, ops[0]);
    StartIs(h);
    ValidIs(h);
    GrewMeans(h, held);
    ghost var middle := h.vm.Held();
    RoomStays(h, held, middle);
    MoreRoom(h.Tiling(), ops[1..], held.room, h.vm.Room());
    var rest;
    rest, lives := Calls(h, ops[1..]);
    GrewTwice(h, held, middle, h.vm.heapStart, h.vm.heapMax);
    ObservedCons(ops[0], ops[1..], r, rest, before, lives);
    assert ops == [ops[0]] + ops[1..];
    rs, lives := [r] + rest, [before] + lives;
    forall p | p in before && !Named(ops, p)
      ensures p in h.LiveMap() && h.LiveMap()[p] == before[p]
    {
      KeptByRun(ops, rs, lives, p);
    }
  }

  lemma ObservedNothing(live: Lives)
    ensures Observed([], [], [live])
  {
  }

  lemma KeptByRun(ops: seq<Op>, rs: seq<Outcome>, lives: seq<Lives>, p: int)
    requires Observed(ops, rs, lives) && p in lives[0] && !Named(ops, p)
    ensures p in lives[|ops|] && lives[|ops|][p] == lives[0][p]
  {
    Isolation(ops, rs, lives, p);
  }
}
