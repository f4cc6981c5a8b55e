/** The kernel heap seen as values: a tiling of the heap range by blocks, the order of the free
    list, and what malloc, free and realloc do to both (src/mem/kheap.c). */
module HeapModel {

  // A 12-byte header (next, prev, size) in front of the payload and a 4-byte copy of the size behind it.
  const HEADER := 12
  const OVERHEAD := 16
  // A remainder smaller than this is not split off.
  const SPLIT_MIN := 8 + OVERHEAD

  datatype Block = Block(addr: int, size: int, free: bool) {
    function End(): int { addr + size + OVERHEAD }

    /** The stored size word: sizes are even, the low bit marks a free block. */
    function Tag(): int { size + if free then 1 else 0 }
  }

  /** The blocks fill [base, brk); pages are mapped up to `mapped`, and none may be added above `limit`.
      `order` lists the addresses of the free blocks from the head of the free list on. */
  datatype State = State(base: int, limit: int, brk: int, mapped: int, blocks: seq<Block>, order: seq<int>, tail: int)

  datatype Outcome = Pointer(ptr: int) | Null | Panic

  datatype Op = Alloc(size: int) | Dispose(ptr: int) | Resize(ptr: int, size: int)

  function PageUp(a: int): int { (a + 4095) / 4096 * 4096 }

  function Rounded(size: int): int { (size + 15) / 16 * 16 }

  lemma FourDivides(x: int, k: int)
    requires x == 4 * k
    ensures x % 4 == 0
  {
  }

  lemma SixteenDivides(x: int, k: int)
    requires x == 16 * k
    ensures x % 16 == 0
  {
  }

  lemma BySixteen(x: int) returns (q: int)
    requires x % 16 == 0
    ensures x == 16 * q
  {
    q := x / 16;
  }

  // ---- Geometry -------------------------------------------------------------------------------

  /** The blocks follow each other without a gap from lo to hi. */
  ghost predicate Chain(bs: seq<Block>, lo: int, hi: int) {
    lo % 16 == 0 &&
    if bs == [] then lo == hi
    else bs[0].addr == lo && bs[0].size >= 16 && bs[0].size % 16 == 0 && Chain(bs[1..], bs[0].End(), hi)
  }

  lemma {:induction false} ChainConcat(x: seq<Block>, y: seq<Block>, lo: int, mid: int, hi: int)
    requires Chain(x, lo, mid) && Chain(y, mid, hi)
    ensures Chain(x + y, lo, hi)
  {
    if x == [] {
      assert x + y == y;
    } else {
      ChainConcat(x[1..], y, x[0].End(), mid, hi);
      assert (x + y)[1..] == x[1..] + y;
    }
  }

  function StartOf(bs: seq<Block>, hi: int): int { if bs == [] then hi else bs[0].addr }

  lemma {:induction false} ChainSplit(x: seq<Block>, y: seq<Block>, lo: int, hi: int)
    requires Chain(x + y, lo, hi)
    ensures Chain(x, lo, StartOf(y, hi)) && Chain(y, StartOf(y, hi), hi)
  {
    if x == [] {
      assert x + y == y;
    } else {
      assert (x + y)[1..] == x[1..] + y;
      ChainSplit(x[1..], y, x[0].End(), hi);
    }
  }

  lemma {:induction false} ChainWithin(bs: seq<Block>, lo: int, hi: int)
    requires Chain(bs, lo, hi)
    ensures lo <= hi && hi % 16 == 0
    ensures forall b :: b in bs ==> lo <= b.addr && b.End() <= hi && b.size >= 16 && b.size % 16 == 0 && b.addr % 16 == 0
  {
    if bs != [] {
      ChainWithin(bs[1..], bs[0].End(), hi);
      assert bs == [bs[0]] + bs[1..];
    }
  }

  lemma {:induction false} ChainOrdered(bs: seq<Block>, lo: int, hi: int)
    requires Chain(bs, lo, hi)
    ensures forall i, j :: 0 <= i < j < |bs| ==> bs[i].End() <= bs[j].addr
  {
    if bs != [] {
      ChainWithin(bs[1..], bs[0].End(), hi);
      ChainOrdered(bs[1..], bs[0].End(), hi);
      forall i, j | 0 <= i < j < |bs|
        ensures bs[i].End() <= bs[j].addr
      {
        assert bs[j] == bs[1..][j - 1];
        if i > 0 {
          assert bs[i] == bs[1..][i - 1];
        }
      }
    }
  }

  /** Two different blocks of a tiling share no byte. */
  lemma ChainDisjoint(bs: seq<Block>, lo: int, hi: int)
    requires Chain(bs, lo, hi)
    ensures forall b, c :: b in bs && c in bs && b != c ==> b.End() <= c.addr || c.End() <= b.addr
  {
    ChainOrdered(bs, lo, hi);
    forall b, c | b in bs && c in bs && b != c
      ensures b.End() <= c.addr || c.End() <= b.addr
    {
      var i :| 0 <= i < |bs| && bs[i] == b;
      var j :| 0 <= j < |bs| && bs[j] == c;
      assert i < j || j < i;
    }
  }

  /** Replacing some consecutive blocks by others that cover the same range keeps the tiling. */
  lemma ChainSplice(x: seq<Block>, old_: seq<Block>, new_: seq<Block>, y: seq<Block>, lo: int, hi: int)
    requires Chain(x + old_ + y, lo, hi)
    requires Chain(new_, StartOf(old_, StartOf(y, hi)), StartOf(y, hi))
    ensures Chain(x + new_ + y, lo, hi)
  {
    assert x + old_ + y == x + (old_ + y);
    ChainSplit(x, old_ + y, lo, hi);
    ChainSplit(old_, y, StartOf(old_ + y, hi), hi);
    ChainConcat(new_, y, StartOf(old_, StartOf(y, hi)), StartOf(y, hi), hi);
    ChainConcat(x, new_ + y, lo, StartOf(old_ + y, hi), hi);
    assert x + new_ + y == x + (new_ + y);
  }

  function FreeAddrs(bs: seq<Block>): set<int> { set b | b in bs && b.free :: b.addr }

  lemma FreeAddrsConcat(x: seq<Block>, y: seq<Block>)
    ensures FreeAddrs(x + y) == FreeAddrs(x) + FreeAddrs(y)
  {
  }

  ghost predicate Coalesced(bs: seq<Block>) {
    forall i, j :: 0 <= i && j == i + 1 && j < |bs| ==> !(bs[i].free && bs[j].free)
  }

  // ---- The free list --------------------------------------------------------------------------

  function Elems(s: seq<int>): set<int> { set x | x in s }

  ghost predicate Distinct(s: seq<int>) { forall i, j :: 0 <= i < j < |s| ==> s[i] != s[j] }

  function Without(s: seq<int>, x: int): seq<int> {
    if s == [] then [] else if s[0] == x then s[1..] else [s[0]] + Without(s[1..], x)
  }

  lemma {:induction false} WithoutAt(s: seq<int>, k: nat)
    requires k < |s| && Distinct(s)
    ensures Without(s, s[k]) == s[..k] + s[k + 1..]
  {
    if k > 0 {
      WithoutAt(s[1..], k - 1);
      assert s[1..][..k - 1] == s[1..k] && s[1..][k..] == s[k + 1..];
      assert s[..k] == [s[0]] + s[1..k];
    }
  }

  lemma WithoutElems(s: seq<int>, x: int)
    requires Distinct(s) && x in s
    ensures Distinct(Without(s, x)) && Elems(Without(s, x)) == Elems(s) - {x}
  {
    var k :| 0 <= k < |s| && s[k] == x;
    WithoutAt(s, k);
    var t := Without(s, x);
    forall y | y in Elems(s) && y != x
      ensures y in t
    {
      var j :| 0 <= j < |s| && s[j] == y;
      assert t[if j < k then j else j - 1] == y;
    }
  }

  // ---- What the operations do -----------------------------------------------------------------

  function IndexOf(bs: seq<Block>, a: int): (i: nat)
    ensures i <= |bs|
    ensures i < |bs| ==> bs[i].addr == a
    ensures i == |bs| ==> forall b :: b in bs ==> b.addr != a
  {
    if bs == [] || bs[0].addr == a then 0 else 1 + IndexOf(bs[1..], a)
  }

  function SizeAt(bs: seq<Block>, a: int): int {
    var i := IndexOf(bs, a);
    if i < |bs| then bs[i].size else 0
  }

  predicate Has(bs: seq<Block>, a: int, free: bool) {
    var i := IndexOf(bs, a);
    i < |bs| && bs[i].free == free
  }

  /** The first of the smallest sufficient free blocks in list order; 0 when none is large enough. */
  function Best(bs: seq<Block>, order: seq<int>, need: int): int {
    if order == [] then 0
    else
      var n := |order| - 1;
      var best := Best(bs, order[..n], need);
      if SizeAt(bs, order[n]) >= need && (best == 0 || SizeAt(bs, order[n]) < SizeAt(bs, best)) then order[n] else best
  }

  /** Allocates `need` bytes at the start of the free block a, splitting off a large remainder. */
  function Take(st: State, a: int, need: int): State
    requires Has(st.blocks, a, true)
  {
    var bs, i := st.blocks, IndexOf(st.blocks, a);
    var rest := bs[i].size - need;
    if rest < SPLIT_MIN then
      st.(blocks := bs[..i] + [Block(a, bs[i].size, false)] + bs[i + 1..], order := Without(st.order, a))
    else
      var r := a + OVERHEAD + need;
      st.(blocks := bs[..i] + [Block(a, need, false), Block(r, rest - OVERHEAD, true)] + bs[i + 1..],
          order := [r] + Without(st.order, a),
          tail := if a == st.tail then r else st.tail)
  }

  function Grow(st: State, need: int): State {
    st.(blocks := st.blocks + [Block(st.brk, need, false)], brk := st.brk + need + OVERHEAD, tail := st.brk,
        mapped := if st.brk + need + OVERHEAD <= st.mapped then st.mapped else PageUp(st.brk + need + OVERHEAD))
  }

  /** The mapped pages reach up to the new break, or more pages may be mapped. */
  predicate CanGrow(st: State, need: int) {
    st.brk + need + OVERHEAD <= st.mapped || st.brk + need + OVERHEAD <= st.limit
  }

  function Malloc(st: State, size: int): (r: (State, Outcome)) {
    var need := Rounded(size);
    var best := Best(st.blocks, st.order, need);
    if size == 0 then (st, Null)
    else if Has(st.blocks, best, true) then (Take(st, best, need), Pointer(best + HEADER))
    else if !CanGrow(st, need) then (st, Panic)
    else (Grow(st, need), Pointer(st.brk + HEADER))
  }

  /** Malloc can be served by the break only. */
  predicate Extends(st: State, size: int) { size != 0 && !Has(st.blocks, Best(st.blocks, st.order, Rounded(size)), true) }

  predicate PrevFree(st: State, i: nat) requires i < |st.blocks| {
    st.blocks[i].addr != st.base && i > 0 && st.blocks[i - 1].free
  }

  predicate NextFree(st: State, i: nat) requires i < |st.blocks| {
    st.blocks[i].addr != st.tail && i + 1 < |st.blocks| && st.blocks[i + 1].free
  }

  /** The block that getNextBlock names; none behind `tail`. */
  function NextOf(st: State, a: int): int { if a == st.tail then 0 else a + OVERHEAD + SizeAt(st.blocks, a) }

  /** The block that getPrevBlock names; none before the first one. */
  function PrevOf(st: State, a: int): int {
    var i := IndexOf(st.blocks, a);
    if 0 < i < |st.blocks| then st.blocks[i - 1].addr else 0
  }

  /** isFree, asked about this block, reads a size word outside the heap. */
  predicate LooksPast(st: State, a: int) { a != 0 && !(st.base <= a && a + HEADER <= st.brk) }

  /** Frees the used block a and joins it with the free blocks beside it. */
  function Release(st: State, a: int): State
    requires Has(st.blocks, a, false)
  {
    var bs, i := st.blocks, IndexOf(st.blocks, a);
    var b := bs[i];
    if PrevFree(st, i) && NextFree(st, i) then
      var p, n := bs[i - 1], bs[i + 1];
      st.(blocks := bs[..i - 1] + [Block(p.addr, p.size + 2 * OVERHEAD + b.size + n.size, true)] + bs[i + 2..],
          order := Without(st.order, n.addr),
          tail := if st.tail == n.addr then p.addr else st.tail)
    else if PrevFree(st, i) then
      var p := bs[i - 1];
      st.(blocks := bs[..i - 1] + [Block(p.addr, p.size + OVERHEAD + b.size, true)] + bs[i + 1..],
          tail := if st.tail == a then p.addr else st.tail)
    else if NextFree(st, i) then
      var n := bs[i + 1];
      st.(blocks := bs[..i] + [Block(a, b.size + OVERHEAD + n.size, true)] + bs[i + 2..],
          order := [a] + Without(st.order, n.addr),
          tail := if st.tail == n.addr then a else st.tail)
    else
      st.(blocks := bs[..i] + [Block(a, b.size, true)] + bs[i + 1..], order := [a] + st.order)
  }

  /** The used block i takes over its free right neighbour. */
  function AbsorbNext(st: State, i: nat): State
    requires i + 1 < |st.blocks|
  {
    var bs := st.blocks;
    var b, n := bs[i], bs[i + 1];
    st.(blocks := bs[..i] + [Block(b.addr, b.size + OVERHEAD + n.size, false)] + bs[i + 2..],
        order := Without(st.order, n.addr),
        tail := if st.tail == n.addr then b.addr else st.tail)
  }

  /** The used block i moves down into its free left neighbour. */
  function AbsorbPrev(st: State, i: nat): State
    requires 0 < i < |st.blocks|
  {
    var bs := st.blocks;
    var b, p := bs[i], bs[i - 1];
    st.(blocks := bs[..i - 1] + [Block(p.addr, b.size + OVERHEAD + p.size, false)] + bs[i + 1..],
        order := Without(st.order, p.addr),
        tail := if st.tail == b.addr then p.addr else st.tail)
  }

  /** The used block i gives its end back; a free right neighbour joins the returned part.
      Without one the split moves no `tail`, even when block i is the last one. */
  function Shrink(st: State, i: nat, need: int): State
    requires i < |st.blocks|
  {
    var bs := st.blocks;
    var b := bs[i];
    var r, rest := b.addr + OVERHEAD + need, b.size - need;
    if NextFree(st, i) then
      var n := bs[i + 1];
      st.(blocks := bs[..i] + [Block(b.addr, need, false), Block(r, rest + n.size, true)] + bs[i + 2..],
          order := [r] + Without(st.order, n.addr),
          tail := if st.tail == n.addr then r else st.tail)
    else
      st.(blocks := bs[..i] + [Block(b.addr, need, false), Block(r, rest - OVERHEAD, true)] + bs[i + 1..],
          order := [r] + st.order)
  }

  datatype Path = Keep | IntoNext | IntoPrev | Move | GiveBack

  /** Which of its paths realloc takes for the used block i. */
  function PathOf(st: State, i: nat, size: int): Path
    requires i < |st.blocks|
  {
    var b, need := st.blocks[i], Rounded(size);
    if b.size == size then Keep
    else if b.size < size then
      if NextFree(st, i) && b.size + OVERHEAD + st.blocks[i + 1].size >= need then IntoNext
      else if PrevFree(st, i) && b.size + OVERHEAD + st.blocks[i - 1].size >= need then IntoPrev
      else Move
    else if b.size - need < SPLIT_MIN then Keep
    else GiveBack
  }

  /** Realloc takes a new block, and that from the break. */
  predicate ReallocExtends(st: State, ptr: int, size: int)
    requires ptr == 0 || Has(st.blocks, ptr - HEADER, false)
  {
    Extends(st, size) && (ptr == 0 || PathOf(st, IndexOf(st.blocks, ptr - HEADER), size).Move?)
  }

  function Realloc(st: State, ptr: int, size: int): (r: (State, Outcome))
    requires ptr == 0 || Has(st.blocks, ptr - HEADER, false)
  {
    if ptr == 0 then Malloc(st, size)
    else if size == 0 then (Release(st, ptr - HEADER), Null)
    else
      var i := IndexOf(st.blocks, ptr - HEADER);
      match PathOf(st, i, size)
      case Keep => (st, Pointer(ptr))
      case IntoNext => (AbsorbNext(st, i), Pointer(ptr))
      case IntoPrev => (AbsorbPrev(st, i), Pointer(st.blocks[i - 1].addr + HEADER))
      case GiveBack => (Shrink(st, i, Rounded(size)), Pointer(ptr))
      case Move =>
        var (st1, r) := Malloc(st, size);
        if r.Pointer? && Has(st1.blocks, ptr - HEADER, false) then (Release(st1, ptr - HEADER), r) else (st1, r)
  }
}
