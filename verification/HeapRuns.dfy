/** Whole runs of malloc, free and realloc: what holds after any sequence of calls, and what one call undoes. */
module HeapRuns {
  import opened HeapModel
  import opened HeapProperties
  import opened HeapMemory

  function Step(st: State, op: Op): (State, Outcome)
    requires Allowed(st, op)
  {
    match op
    case Alloc(size) => Malloc(st, size)
    case Dispose(ptr) => (Release(st, ptr - HEADER), Null)
    case Resize(ptr, size) => Realloc(st, ptr, size)
  }

  /** Callers pass back only pointers that are in use, and sizes that 32-bit rounding does not wrap for. */
  predicate Allowed(st: State, op: Op) {
    match op
    case Alloc(size) => 0 <= size <= MAX_REQUEST
    case Dispose(ptr) => Has(st.blocks, ptr - HEADER, false)
    case Resize(ptr, size) => 0 <= size <= MAX_REQUEST && (ptr == 0 || Has(st.blocks, ptr - HEADER, false))
  }

  predicate LosesTail(st: State, op: Op) {
    op.Resize? && TailShrink(st, op.ptr, op.size)
  }

  ghost predicate Run(sts: seq<State>, ops: seq<Op>) {
    |sts| == |ops| + 1 && forall i :: 0 <= i < |ops| ==> Moves(sts, ops, i)
  }

  ghost predicate Moves(sts: seq<State>, ops: seq<Op>, i: nat)
    requires i < |ops| < |sts|
  {
    Allowed(sts[i], ops[i]) && sts[i + 1] == Step(sts[i], ops[i]).0
  }

  /** One call keeps the invariant exactly when it is not a shrinking realloc of the last block. */
  lemma StepKeeps(st: State, op: Op)
    requires Inv(st) && Allowed(st, op)
    ensures Inv(Step(st, op).0) <==> !LosesTail(st, op)
    ensures Tiled(Step(st, op).0)
  {
    hide Tiled;
    match op
    case Alloc(size) => MallocKeeps(st, size);
    case Dispose(ptr) => ReleaseKeeps(st, ptr - HEADER);
    case Resize(ptr, size) =>
      if ptr == 0 {
        MallocKeeps(st, size);
      } else if size == 0 {
        ReleaseKeeps(st, ptr - HEADER);
      } else {
        ReallocKeeps(st, ptr, size);
      }
  }

  /** Every run without such a call keeps the invariant, to the end; the first such call ends it. */
  lemma {:induction false} RunKeeps(sts: seq<State>, ops: seq<Op>)
    requires Run(sts, ops) && Inv(sts[0])
    requires forall i :: 0 <= i < |ops| - 1 ==> !LosesTail(sts[i], ops[i])
    ensures forall i :: 0 <= i < |ops| ==> Inv(sts[i])
    ensures ops != [] ==> (Inv(sts[|ops|]) <==> !LosesTail(sts[|ops| - 1], ops[|ops| - 1]))
  {
    hide Inv, LosesTail, Step, Allowed;
    if ops != [] {
      var n := |ops| - 1;
      var init, first := sts[..n + 1], ops[..n];
      forall i | 0 <= i < n ensures Moves(init, first, i) {
        assert Moves(sts, ops, i);
      }
      RunKeeps(init, first);
      assert Moves(sts, ops, n);
      assert Inv(sts[n]) by {
        if n > 0 {
          assert !LosesTail(sts[n - 1], ops[n - 1]);
        }
      }
      StepKeeps(sts[n], ops[n]);
    }
  }

  /** Payloads and overheads always add up to the whole heap. */
  function Total(bs: seq<Block>): int {
    if bs == [] then 0 else bs[0].size + OVERHEAD + Total(bs[1..])
  }

  lemma {:induction false} NothingIsLost(bs: seq<Block>, lo: int, hi: int)
    requires Chain(bs, lo, hi)
    ensures Total(bs) == hi - lo
  {
    if bs != [] {
      NothingIsLost(bs[1..], bs[0].End(), hi);
    }
  }

  /** In every run, live payloads are pairwise disjoint and lie inside the heap. */
  lemma LiveApart(st: State, b: Block, c: Block)
    requires Inv(st) && b in Used(st.blocks) && c in Used(st.blocks) && b != c
    ensures b.addr + HEADER + b.size <= c.addr || c.addr + HEADER + c.size <= b.addr
    ensures st.base <= b.addr && b.addr + HEADER + b.size <= st.brk
  {
    ChainDisjoint(st.blocks, st.base, st.brk);
    UsedIs(st, b);
    UsedIs(st, c);
  }

  /** Freeing what malloc took from a free block restores the tiling. */
  lemma FreeUndoesMalloc(st: State, size: int)
    requires Inv(st) && 0 < size <= MAX_REQUEST
    requires exists b :: b in st.blocks && b.free && b.size >= Rounded(size)
    ensures var (st', r) := Malloc(st, size);
      && r.Pointer? && Has(st'.blocks, r.ptr - HEADER, false)
      && Release(st', r.ptr - HEADER).blocks == st.blocks
      && Release(st', r.ptr - HEADER).tail == st.tail
  {
    var need := Rounded(size);
    RoundedIs(size);
    TakesWhenFits(st, need);
    var best := Best(st.blocks, st.order, need);
    var i := IndexOf(st.blocks, best);
    if st.blocks[i].size - need < SPLIT_MIN { UndoWhole(st, i, need); } else { UndoPart(st, i, need); }
  }

  lemma UndoWhole(st: State, i: nat, need: int)
    requires Inv(st) && i < |st.blocks| && st.blocks[i].free && 16 <= need <= st.blocks[i].size < need + SPLIT_MIN
    requires IndexOf(st.blocks, st.blocks[i].addr) == i
    ensures var a := st.blocks[i].addr; var st' := Take(st, a, need);
      && Has(st'.blocks, a, false) && Release(st', a).blocks == st.blocks && Release(st', a).tail == st.tail
  {
    hide Inv, Tiled, PrevFree, NextFree;
    WholeAlone(st, i, need);
    InPlace(st.blocks, i, Take(st, st.blocks[i].addr, need).blocks[i]);
  }

  /** A whole block that malloc took has no free neighbour. */
  lemma WholeAlone(st: State, i: nat, need: int)
    requires Inv(st) && i < |st.blocks| && st.blocks[i].free && 16 <= need <= st.blocks[i].size < need + SPLIT_MIN
    requires IndexOf(st.blocks, st.blocks[i].addr) == i
    ensures var a := st.blocks[i].addr; var st' := Take(st, a, need);
      && i < |st'.blocks| && IndexOf(st'.blocks, a) == i && Has(st'.blocks, a, false)
      && !PrevFree(st', i) && !NextFree(st', i)
  {
    hide Chain, Coalesced, Distinct, FreeAddrs, Used;
    var a, b := st.blocks[i].addr, st.blocks[i];
    var st' := Take(st, a, need);
    TakeWhole(st, a, need);
    assert st'.blocks[i] == Block(a, b.size, false);
    AtIndex(st'.blocks, i, st.base, st.brk);
    JoinsAt(st.blocks, i);
    NextFreeMeans(st', i);
  }

  lemma UndoPart(st: State, i: nat, need: int)
    requires Inv(st) && i < |st.blocks| && st.blocks[i].free && 16 <= need && need % 16 == 0
    requires need + SPLIT_MIN <= st.blocks[i].size && IndexOf(st.blocks, st.blocks[i].addr) == i
    ensures var a := st.blocks[i].addr; var st' := Take(st, a, need);
      && Has(st'.blocks, a, false) && Release(st', a).blocks == st.blocks && Release(st', a).tail == st.tail
  {
    hide Inv, Tiled, PrevFree, NextFree;
    PartBesideRest(st, i, need);
    var st' := Take(st, st.blocks[i].addr, need);
    CutInTwo(st.blocks, i, st'.blocks[i], st'.blocks[i + 1]);
  }

  lemma InPlace(bs: seq<Block>, i: nat, c: Block)
    requires i < |bs|
    ensures var now := bs[..i] + [c] + bs[i + 1..]; now[i] == c && now[..i] == bs[..i] && now[i + 1..] == bs[i + 1..]
    ensures bs == bs[..i] + [bs[i]] + bs[i + 1..]
  {
  }

  lemma CutInTwo(bs: seq<Block>, i: nat, c: Block, d: Block)
    requires i < |bs|
    ensures var cut := bs[..i] + [c, d] + bs[i + 1..];
      cut[i] == c && cut[i + 1] == d && cut[..i] == bs[..i] && cut[i + 2..] == bs[i + 1..]
    ensures bs == bs[..i] + [bs[i]] + bs[i + 1..]
  {
  }

  /** A part that malloc cut off has the free rest behind it and nothing free before it. */
  lemma PartBesideRest(st: State, i: nat, need: int)
    requires Inv(st) && i < |st.blocks| && st.blocks[i].free && 16 <= need && need % 16 == 0
    requires need + SPLIT_MIN <= st.blocks[i].size && IndexOf(st.blocks, st.blocks[i].addr) == i
    ensures var a := st.blocks[i].addr; var st' := Take(st, a, need);
      && i + 1 < |st'.blocks| && IndexOf(st'.blocks, a) == i && Has(st'.blocks, a, false)
      && !PrevFree(st', i) && NextFree(st', i)
      && (st'.tail == st'.blocks[i + 1].addr <==> st.tail == a)
  {
    hide Chain, Coalesced, Distinct, FreeAddrs, Used;
    var a, b := st.blocks[i].addr, st.blocks[i];
    var st' := Take(st, a, need);
    TakePart(st, a, need);
    assert st'.blocks[i] == Block(a, need, false);
    assert st'.blocks[i + 1] == Block(a + OVERHEAD + need, b.size - need - OVERHEAD, true);
    AtIndex(st'.blocks, i, st.base, st.brk);
    JoinsAt(st.blocks, i);
    NextFreeMeans(st', i);
    LastOnly(st, i);
    LastOnly(st', i + 1);
  }

  // ---- What callers see over a run ------------------------------------------------------------

  /** lives[i] is what the callers hold before call i. */
  ghost predicate Observed(ops: seq<Op>, rs: seq<Outcome>, lives: seq<map<int, seq<int>>>) {
    && |rs| == |ops| && |lives| == |ops| + 1
    && forall i, j :: 0 <= i < |ops| && j == i + 1 ==> Effect(ops[i], rs[i], lives[i], lives[j])
  }

  predicate Names(op: Op, p: int) { (op.Dispose? && op.ptr == p) || (op.Resize? && op.ptr == p) }

  /** A pointer that no call of the run frees or resizes keeps its bytes through the whole run. */
  lemma {:induction false} Isolation(ops: seq<Op>, rs: seq<Outcome>, lives: seq<map<int, seq<int>>>, p: int)
    requires Observed(ops, rs, lives) && p in lives[0]
    requires forall i :: 0 <= i < |ops| ==> !Names(ops[i], p)
    ensures p in lives[|ops|] && lives[|ops|][p] == lives[0][p]
  {
    if ops != [] {
      var n := |ops| - 1;
      Isolation(ops[..n], rs[..n], lives[..n + 1], p);
      assert !Names(ops[n], p) && Effect(ops[n], rs[n], lives[n], lives[n + 1]);
      EffectKeeps(ops[n], rs[n], lives[n], lives[n + 1], p);
    }
  }

  lemma EffectKeeps(op: Op, r: Outcome, was: map<int, seq<int>>, now: map<int, seq<int>>, p: int)
    requires Effect(op, r, was, now) && p in was && !Names(op, p)
    ensures p in now && now[p] == was[p]
  {
    match op
    case Alloc(size) =>
      if r.Pointer? { assert (now - {r.ptr})[p] == was[p]; }
    case Dispose(ptr) => assert (was - {ptr})[p] == was[p];
    case Resize(ptr, size) =>
      if r.Pointer? { assert p in was - {ptr} && (now - {r.ptr})[p] == (was - {ptr})[p]; }
  }
}
