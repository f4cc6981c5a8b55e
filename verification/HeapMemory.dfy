/** How a tiling and a free list are laid out in memory words, and what writing some words leaves alone. */
module HeapMemory {
  import opened HeapModel
  import opened HeapProperties

  type Word = x: int | 0 <= x < 0x1_0000_0000

  /** Memory contents by byte address, one entry for every word. */
  type Image = map<int, int>

  function At(m: Image, a: int): int { if a in m then m[a] else 0 }

  /** Header and trailer of every block hold its size and free bit. */
  ghost predicate Tags(m: Image, bs: seq<Block>) {
    forall b :: b in bs ==> At(m, b.addr + 8) == b.Tag() && At(m, b.End() - 4) == b.Tag()
  }

  function After(order: seq<int>, i: nat): int { if i + 1 < |order| then order[i + 1] else 0 }

  function Before(order: seq<int>, i: nat): int requires i <= |order| { if i > 0 then order[i - 1] else 0 }

  /** The next and prev words of the listed blocks form a doubly linked list in this order. */
  ghost predicate Listed(m: Image, order: seq<int>, first: int) {
    && first == (if order == [] then 0 else order[0])
    && Aligned(order)
    && (forall i: nat {:trigger After(order, i)} {:trigger Before(order, i)} :: i < |order| ==>
          At(m, order[i]) == After(order, i) && At(m, order[i] + 4) == Before(order, i))
  }

  ghost predicate Aligned(order: seq<int>) {
    forall a :: a in order ==> a > 0 && a % 16 == 0
  }

  /** Only link words of the given blocks may differ. */
  ghost predicate LinksOnly(m: Image, m': Image, order: seq<int>) {
    forall a :: a !in order && a - 4 !in order ==> At(m', a) == At(m, a)
  }

  lemma ListedFrame(m: Image, m': Image, order: seq<int>, first: int)
    requires Listed(m, order, first)
    requires forall a :: a in order ==> At(m', a) == At(m, a) && At(m', a + 4) == At(m, a + 4)
    ensures Listed(m', order, first)
  {
    forall i: nat | i < |order|
      ensures At(m', order[i]) == After(order, i) && At(m', order[i] + 4) == Before(order, i)
    {
      ListedAt(m, order, first, i);
      assert order[i] in order;
    }
  }

  lemma ListedAt(m: Image, order: seq<int>, first: int, i: nat)
    requires Listed(m, order, first) && i < |order|
    ensures At(m, order[i]) == After(order, i) && At(m, order[i] + 4) == Before(order, i)
    ensures After(order, i) != 0 <==> i + 1 < |order|
    ensures Before(order, i) != 0 <==> i > 0
    ensures order[i] % 16 == 0 && After(order, i) % 16 == 0 && Before(order, i) % 16 == 0
  {
    assert order[i] in order;
    assert After(order, i) == At(m, order[i]);
    if i + 1 < |order| { assert order[i + 1] in order; }
    if i > 0 { assert order[i - 1] in order; }
  }

  /** Link words of different listed blocks are different words. */
  lemma Apart(order: seq<int>, j: nat, k: nat)
    requires Distinct(order) && Aligned(order) && j < |order| && k < |order| && j != k
    ensures order[j] == Before(order, k) <==> j + 1 == k
    ensures order[j] == After(order, k) <==> j == k + 1
    ensures order[j] != After(order, k) + 4 && order[j] + 4 != Before(order, k)
  {
    assert order[j] in order;
    if k > 0 { assert order[k - 1] in order; }
    if k + 1 < |order| { assert order[k + 1] in order; }
  }

  /** The memory after the list code has unlinked order[k]. */
  ghost predicate UnlinkedAt(m: Image, m': Image, order: seq<int>, k: nat)
    requires k < |order|
  {
    && (forall a :: a != Before(order, k) && a != After(order, k) + 4 ==> At(m', a) == At(m, a))
    && (k > 0 ==> At(m', order[k - 1]) == After(order, k))
    && (k + 1 < |order| ==> At(m', order[k + 1] + 4) == Before(order, k))
  }

  lemma Unlinked(m: Image, m': Image, order: seq<int>, first: int, k: nat)
    requires Listed(m, order, first) && Distinct(order) && k < |order| && UnlinkedAt(m, m', order, k)
    ensures Listed(m', order[..k] + order[k + 1..], if k > 0 then first else After(order, k))
  {
    hide Distinct, UnlinkedAt;
    var rest := order[..k] + order[k + 1..];
    forall i: nat | i < |rest|
      ensures At(m', rest[i]) == After(rest, i) && At(m', rest[i] + 4) == Before(rest, i)
    {
      UnlinkedEntry(m, m', order, first, k, if i < k then i else i + 1);
      WithoutEntry(order, k, i);
    }
    assert Aligned(rest) by {
      forall a | a in rest ensures a in order {
      }
    }
    if rest != [] {
      assert rest[0] == order[if k > 0 then 0 else 1];
    }
  }

  lemma WithoutEntry(order: seq<int>, k: nat, i: nat)
    requires k < |order| && i + 1 < |order|
    ensures var rest, j := order[..k] + order[k + 1..], if i < k then i else i + 1;
            && rest[i] == order[j]
            && After(rest, i) == (if j + 1 == k then After(order, k) else After(order, j))
            && Before(rest, i) == (if j == k + 1 then Before(order, k) else Before(order, j))
  {
  }

  lemma UnlinkedEntry(m: Image, m': Image, order: seq<int>, first: int, k: nat, j: nat)
    requires Listed(m, order, first) && Distinct(order) && k < |order| && UnlinkedAt(m, m', order, k)
    requires j < |order| && j != k
    ensures At(m', order[j]) == if j + 1 == k then After(order, k) else After(order, j)
    ensures At(m', order[j] + 4) == if j == k + 1 then Before(order, k) else Before(order, j)
  {
    ListedAt(m, order, first, j);
    Apart(order, j, k);
  }

  lemma Linked(m: Image, m': Image, order: seq<int>, first: int, a: int)
    requires Listed(m, order, first) && Distinct(order) && a > 0 && a % 16 == 0 && a !in order
    requires forall x :: x != a && x != a + 4 && x != first + 4 ==> At(m', x) == At(m, x)
    requires At(m', a) == first && At(m', a + 4) == 0
    requires first != 0 ==> At(m', first + 4) == a
    ensures Listed(m', [a] + order, a)
  {
    var more := [a] + order;
    forall i: nat | i < |more|
      ensures At(m', more[i]) == After(more, i) && At(m', more[i] + 4) == Before(more, i)
    {
      if i > 0 {
        ListedAt(m, order, first, i - 1);
        assert more[i] == order[i - 1] && order[i - 1] in order && order[0] in order;
      }
    }
  }

  // ---- Frames ---------------------------------------------------------------------------------

  /** Only words of [lo, hi) and link words of the blocks in `starts` may differ. */
  ghost predicate Touches(m: Image, m': Image, lo: int, hi: int, starts: set<int>) {
    forall a :: !(lo <= a < hi) && a !in starts && a - 4 !in starts ==> At(m', a) == At(m, a)
  }

  /** The words of n bytes from p on. */
  function Bytes(m: Image, p: int, n: int): (s: seq<int>)
    ensures |s| == if n < 0 then 0 else n / 4
  {
    if n < 0 then [] else seq(n / 4, k => At(m, p + 4 * k))
  }

  function Payload(m: Image, b: Block): seq<int> { Bytes(m, b.addr + HEADER, b.size) }

  function Ptrs(bs: seq<Block>): set<int> { set b | b in Used(bs) :: b.addr + HEADER }

  /** What the callers see: the pointers handed out and not yet freed, each with its bytes. */
  function Live(m: Image, bs: seq<Block>): map<int, seq<int>> {
    map p | p in Ptrs(bs) :: Bytes(m, p, SizeAt(bs, p - HEADER))
  }

  /** The common prefix of two payloads, word by word. */
  ghost predicate SamePrefix(was: seq<int>, now: seq<int>) {
    forall k :: 0 <= k < |was| && k < |now| ==> now[k] == was[k]
  }

  /** What a call does to the pointers in use and to the bytes behind them. */
  ghost predicate Effect(op: Op, r: Outcome, was: map<int, seq<int>>, now: map<int, seq<int>>) {
    match op
    case Alloc(size) =>
      if r.Pointer? then r.ptr !in was && r.ptr in now && 4 * |now[r.ptr]| >= size && now - {r.ptr} == was else now == was
    case Dispose(ptr) => now == was - {ptr}
    case Resize(ptr, size) =>
      match r
      case Panic => now == was
      case Null => now == was - {ptr}
      case Pointer(q) =>
        && q in now && 4 * |now[q]| >= size && now - {q} == was - {ptr}
        && (ptr in was ==> SamePrefix(was[ptr], now[q]))
  }

  lemma LiveAt(st: State, m: Image, c: Block)
    requires Tiled(st) && c in Used(st.blocks)
    ensures c.addr + HEADER in Live(m, st.blocks) && Live(m, st.blocks)[c.addr + HEADER] == Payload(m, c)
  {
    UsedIs(st, c);
    assert c.addr + HEADER in Ptrs(st.blocks);
  }

  /** One used block b has been replaced by c, or added or removed; the others have kept their payload. */
  lemma LiveChange(st: State, st': State, m: Image, m': Image, gone: set<Block>, new_: set<Block>)
    requires Tiled(st) && Tiled(st') && gone <= Used(st.blocks)
    requires Used(st'.blocks) == Used(st.blocks) - gone + new_
    requires forall c :: c in Used(st.blocks) - gone ==> Payload(m', c) == Payload(m, c)
    ensures forall p :: p in Live(m, st.blocks) && (forall b :: b in gone ==> p != b.addr + HEADER) ==>
      p in Live(m', st'.blocks) && Live(m', st'.blocks)[p] == Live(m, st.blocks)[p]
    ensures forall p :: p in Live(m', st'.blocks) && (forall b :: b in new_ ==> p != b.addr + HEADER) ==>
      p in Live(m, st.blocks) && (forall b :: b in gone ==> p != b.addr + HEADER)
  {
    hide Tiled, Live;
    forall p | p in Live(m, st.blocks) && (forall b :: b in gone ==> p != b.addr + HEADER)
      ensures p in Live(m', st'.blocks) && Live(m', st'.blocks)[p] == Live(m, st.blocks)[p]
    {
      var c := LiveBlock(st, m, p);
      assert c in Used(st'.blocks);
      LiveAt(st, m, c);
      LiveAt(st', m', c);
    }
    forall p | p in Live(m', st'.blocks) && (forall b :: b in new_ ==> p != b.addr + HEADER)
      ensures p in Live(m, st.blocks) && (forall b :: b in gone ==> p != b.addr + HEADER)
    {
      var c := LiveBlock(st', m', p);
      assert c in Used(st.blocks) && c !in gone;
      LiveAt(st, m, c);
      forall b | b in gone ensures p != b.addr + HEADER {
        UsedIs(st, b);
        UsedIs(st, c);
      }
    }
  }

  lemma LiveBlock(st: State, m: Image, p: int) returns (c: Block)
    requires p in Live(m, st.blocks)
    ensures c in Used(st.blocks) && c.addr + HEADER == p
  {
    c :| c in Used(st.blocks) && c.addr + HEADER == p;
  }

  lemma Outside(st: State, lo: nat, hi: nat, c: Block)
    requires Tiled(st) && lo < hi <= |st.blocks| && (c in st.blocks[..lo] || c in st.blocks[hi..])
    ensures c.End() <= st.blocks[lo].addr || st.blocks[hi - 1].End() <= c.addr
    ensures c.size >= 16 && c.size % 16 == 0 && c.addr % 16 == 0
  {
    ChainWithin(st.blocks, st.base, st.brk);
    ChainOrdered(st.blocks, st.base, st.brk);
    if c in st.blocks[..lo] {
      var j :| 0 <= j < lo && st.blocks[j] == c;
    } else {
      var j :| hi <= j < |st.blocks| && st.blocks[j] == c;
    }
  }

  /** A free block starts at a multiple of 16, and not inside a used block. */
  lemma StartsApart(st: State, s: int, c: Block)
    requires Tiled(st) && s in FreeAddrs(st.blocks)
    ensures s % 16 == 0 && st.base <= s
    ensures c in Used(st.blocks) ==> s < c.addr || c.End() <= s
  {
    ChainWithin(st.blocks, st.base, st.brk);
    ChainDisjoint(st.blocks, st.base, st.brk);
    var f :| f in st.blocks && f.free && f.addr == s;
  }

  lemma TagKept(st: State, m: Image, m': Image, lo: int, hi: int, c: Block)
    requires Tiled(st) && Touches(m, m', lo, hi, FreeAddrs(st.blocks))
    requires c.addr % 16 == 0 && c.size % 16 == 0 && c.size >= 16 && (c.End() <= lo || hi <= c.addr)
    ensures At(m', c.addr + 8) == At(m, c.addr + 8) && At(m', c.End() - 4) == At(m, c.End() - 4)
  {
    hide Tiled;
    var starts := FreeAddrs(st.blocks);
    forall s | s in starts ensures s % 16 == 0 { StartsApart(st, s, c); }
    assert c.addr + 8 !in starts && c.addr + 4 !in starts;
    assert c.End() - 4 !in starts && c.End() - 8 !in starts;
  }

  /** Writing inside some consecutive blocks, and to links of free blocks, keeps the tags of the others. */
  lemma TagsKept(st: State, m: Image, m': Image, lo: nat, hi: nat)
    requires Tiled(st) && Tags(m, st.blocks) && lo < hi <= |st.blocks|
    requires Touches(m, m', st.blocks[lo].addr, st.blocks[hi - 1].End(), FreeAddrs(st.blocks))
    ensures Tags(m', st.blocks[..lo]) && Tags(m', st.blocks[hi..])
  {
    hide Tiled, Touches;
    forall c | c in st.blocks[..lo] || c in st.blocks[hi..]
      ensures At(m', c.addr + 8) == c.Tag() && At(m', c.End() - 4) == c.Tag()
    {
      Outside(st, lo, hi, c);
      TagKept(st, m, m', st.blocks[lo].addr, st.blocks[hi - 1].End(), c);
    }
  }

  /** ... and it keeps the payload of every other used block. */
  lemma PayloadKept(st: State, m: Image, m': Image, lo: nat, hi: nat, c: Block)
    requires Tiled(st) && lo < hi <= |st.blocks|
    requires Touches(m, m', st.blocks[lo].addr, st.blocks[hi - 1].End(), FreeAddrs(st.blocks))
    requires c in Used(st.blocks) && c !in st.blocks[lo..hi]
    ensures Payload(m', c) == Payload(m, c)
  {
    hide Tiled;
    assert st.blocks == st.blocks[..lo] + st.blocks[lo..hi] + st.blocks[hi..];
    Outside(st, lo, hi, c);
    forall k | 0 <= k < c.size / 4
      ensures At(m', c.addr + HEADER + 4 * k) == At(m, c.addr + HEADER + 4 * k)
    {
      var starts, a := FreeAddrs(st.blocks), c.addr + HEADER + 4 * k;
      forall s | s in starts ensures s < c.addr || c.End() <= s { StartsApart(st, s, c); }
      assert a !in starts && a - 4 !in starts;
    }
  }

  lemma TouchLinks(m: Image, m1: Image, m2: Image, order: seq<int>, lo: int, hi: int, starts: set<int>)
    requires Touches(m, m1, lo, hi, starts) && LinksOnly(m1, m2, order)
    requires forall a :: a in order ==> a in starts || (lo <= a && a + 8 <= hi)
    ensures Touches(m, m2, lo, hi, starts)
  {
  }

  /** Outside gone and new_, the used blocks and their payloads are the same. */
  ghost predicate Swapped(st: State, m: Image, st': State, m': Image, gone: set<Block>, new_: set<Block>) {
    && gone <= Used(st.blocks) && Used(st'.blocks) == Used(st.blocks) - gone + new_
    && forall c :: c in Used(st.blocks) - gone ==> Payload(m', c) == Payload(m, c)
  }

  /** A block has been freed: its pointer is gone, all others read as before. */
  lemma LiveDrop(st: State, st': State, m: Image, m': Image, b: Block)
    requires Tiled(st) && Tiled(st') && Swapped(st, m, st', m', {b}, {})
    ensures Live(m', st'.blocks) == Live(m, st.blocks) - {b.addr + HEADER}
  {
    hide Tiled, Live;
    LiveChange(st, st', m, m', {b}, {});
    var was, now, p := Live(m, st.blocks), Live(m', st'.blocks), b.addr + HEADER;
    assert b in {b} && p !in now;
    assert forall q :: q in now ==> q in was && now[q] == was[q] && q != p;
    assert forall q :: q in was && q != p ==> q in now && now[q] == was[q];
  }

  /** A block has been handed out. */
  lemma LiveAdd(st: State, st': State, m: Image, m': Image, c: Block)
    requires Tiled(st) && Tiled(st') && Swapped(st, m, st', m', {}, {c}) && c !in Used(st.blocks)
    ensures c.addr + HEADER !in Live(m, st.blocks)
    ensures Live(m', st'.blocks) == Live(m, st.blocks)[c.addr + HEADER := Payload(m', c)]
  {
    hide Tiled, Live;
    LiveChange(st, st', m, m', {}, {c});
    var was, now, p := Live(m, st.blocks), Live(m', st'.blocks), c.addr + HEADER;
    assert c in Used(st'.blocks);
    LiveAt(st', m', c);
    if p in was {
      var b := LiveBlock(st, m, p);
      assert b in Used(st'.blocks);
      UsedIs(st', b);
      UsedIs(st', c);
      UsedIs(st, b);
    }
    assert forall q :: q in now && q != p ==> q in was && now[q] == was[q];
    assert forall q :: q in was ==> q in now && now[q] == was[q];
  }

  lemma SizeIsWords(st: State, b: Block)
    requires Tiled(st) && b in Used(st.blocks)
    ensures b.size >= 0 && 4 * (b.size / 4) == b.size
  {
    hide Tiled, Used;
    assert b.size >= 0 && b.size % 16 == 0 by { UsedIs(st, b); }
    Words(b.size);
  }

  lemma Words(n: int)
    requires n % 16 == 0
    ensures 4 * (n / 4) == n
  {
    var q := BySixteen(n);
    Quarter(n, 4 * q);
  }

  lemma Quarter(n: int, k: int)
    requires n == 4 * k
    ensures n / 4 == k
  {
  }

  /** What that means for the callers: one pointer more, with room for the request. */
  lemma LiveAdds(st: State, st': State, m: Image, m': Image, c: Block, size: int)
    requires Tiled(st) && Tiled(st') && Swapped(st, m, st', m', {}, {c}) && Adds(st, st', c, size)
    ensures var was, now, p := Live(m, st.blocks), Live(m', st'.blocks), c.addr + HEADER;
      p !in was && p in now && 4 * |now[p]| >= size && now == was[p := now[p]]
  {
    hide Tiled, Live, Used, Swapped;
    assert c !in Used(st.blocks) by {
      if c in Used(st.blocks) { UsedIs(st, c); }
    }
    LiveAdd(st, st', m, m', c);
    assert c in Used(st'.blocks);
    SizeIsWords(st', c);
  }

  /** Block b has been replaced by c. */
  lemma LiveReplace(st: State, st': State, m: Image, m': Image, b: Block, c: Block)
    requires Tiled(st) && Tiled(st') && Swapped(st, m, st', m', {b}, {c})
    requires c == b || c !in Used(st.blocks)
    ensures b.addr + HEADER in Live(m, st.blocks) && Live(m, st.blocks)[b.addr + HEADER] == Payload(m, b)
    ensures c.addr + HEADER in Live(m', st'.blocks) && Live(m', st'.blocks)[c.addr + HEADER] == Payload(m', c)
    ensures Live(m', st'.blocks) - {c.addr + HEADER} == Live(m, st.blocks) - {b.addr + HEADER}
  {
    hide Tiled, Live;
    LiveChange(st, st', m, m', {b}, {c});
    LiveAt(st, m, b);
    LiveAt(st', m', c);
    NewPtr(st, st', m, m', b, c);
    var was, now, p, q := Live(m, st.blocks), Live(m', st'.blocks), b.addr + HEADER, c.addr + HEADER;
    assert b in {b};
    assert forall x :: x in was && x != p ==> x in now && now[x] == was[x];
    assert forall x :: x in now && x != q ==> x in was && x != p;
  }

  lemma NewPtr(st: State, st': State, m: Image, m': Image, b: Block, c: Block)
    requires Tiled(st) && Tiled(st') && Swapped(st, m, st', m', {b}, {c})
    requires c == b || c !in Used(st.blocks)
    ensures c.addr + HEADER in Live(m, st.blocks) ==> c.addr == b.addr
  {
    hide Tiled, Live;
    if c.addr + HEADER in Live(m, st.blocks) {
      var a := LiveBlock(st, m, c.addr + HEADER);
      if a != b {
        assert a in Used(st'.blocks) && c in Used(st'.blocks);
        UsedIs(st', a);
        UsedIs(st', c);
      }
    }
  }

  /** Rewriting the blocks from lo to hi as mid, in their own range, leaves every other block as it was. */
  lemma Settle(st: State, st': State, m: Image, m': Image, lo: nat, hi: nat, mid: seq<Block>)
    requires Tiled(st) && Tags(m, st.blocks) && lo < hi <= |st.blocks|
    requires st'.blocks == Splice(st.blocks, lo, hi, mid)
    requires Touches(m, m', st.blocks[lo].addr, st.blocks[hi - 1].End(), FreeAddrs(st.blocks))
    requires Tags(m', mid)
    ensures Tags(m', st'.blocks)
    ensures Swapped(st, m, st', m', Used(st.blocks[lo..hi]), Used(mid))
  {
    hide Chain, Coalesced, Distinct, FreeAddrs, Touches, Payload;
    TagsKept(st, m, m', lo, hi);
    SpliceSets(st.blocks, lo, hi, mid, st.base, st.brk);
    forall c | c in Used(st.blocks) - Used(st.blocks[lo..hi])
      ensures Payload(m', c) == Payload(m, c)
    {
      PayloadKept(st, m, m', lo, hi, c);
    }
  }

  function Tagged(m: Image, b: Block): Image { m[b.addr + 8 := b.Tag()][b.End() - 4 := b.Tag()] }

  /** Writing the tags of a block that lies in the given range. */
  lemma TouchSize(m: Image, m1: Image, b: Block, lo: int, hi: int, starts: set<int>)
    requires Touches(m, m1, lo, hi, starts) && lo <= b.addr && b.End() <= hi && b.size >= 0
    ensures Touches(m, Tagged(m1, b), lo, hi, starts)
  {
  }

  /** The two tag words of b hold its tag. */
  ghost predicate Tag(m: Image, b: Block) { At(m, b.addr + 8) == b.Tag() && At(m, b.End() - 4) == b.Tag() }

  /** The links of these blocks may be written: they are free blocks, or lie in the range. */
  ghost predicate Linkable(links: seq<int>, lo: int, hi: int, starts: set<int>) {
    Aligned(links) && forall a :: a in links ==> a in starts || (lo <= a && a + 8 <= hi)
  }

  lemma OrderLinkable(order: seq<int>, extra: int, lo: int, hi: int, starts: set<int>)
    requires Aligned(order) && Elems(order) == starts
    requires extra > 0 && extra % 16 == 0 && lo <= extra && extra + 8 <= hi
    ensures Linkable(order, lo, hi, starts) && Linkable([extra] + order, lo, hi, starts)
  {
    assert forall a :: a in order ==> a in Elems(order);
  }

  ghost predicate Fits(b: Block, lo: int, hi: int) {
    lo <= b.addr && b.End() <= hi && b.addr % 16 == 0 && b.size % 16 == 0 && b.size >= 16
  }

  /** Relinking leaves tags alone: links are at multiples of 16, or 4 above. */
  lemma TagStays(m: Image, m': Image, order: seq<int>, b: Block)
    requires LinksOnly(m, m', order) && Aligned(order) && b.addr % 16 == 0 && b.size % 16 == 0 && Tag(m, b)
    ensures Tag(m', b)
  {
    OffList(order, b.addr);
    OffList(order, b.addr + b.size);
  }

  /** The words that hold sizes are never the first words of a block. */
  lemma OffList(order: seq<int>, a: int)
    requires Aligned(order) && a % 16 == 0
    ensures a + 8 !in order && a + 4 !in order && a + 12 !in order
  {
    assert (a + 8) % 16 == 8 && (a + 4) % 16 == 4 && (a + 12) % 16 == 12;
  }

  lemma LinksTwice(m: Image, m1: Image, m2: Image, first: seq<int>, second: seq<int>, links: seq<int>)
    requires LinksOnly(m, m1, first) && LinksOnly(m1, m2, second)
    requires forall a :: a in first || a in second ==> a in links
    ensures LinksOnly(m, m2, links)
  {
  }

  lemma NoLinksOf(m: Image, links: seq<int>)
    ensures LinksOnly(m, m, links)
  {
  }

  lemma FitsIn(b: Block, lo: int, hi: int)
    requires lo <= b.addr && b.End() <= hi && b.addr % 16 == 0 && b.size % 16 == 0 && b.size >= 16
    ensures Fits(b, lo, hi)
  {
  }

  lemma NotInRest(order: seq<int>, x: int, y: int)
    requires Distinct(order) && x in order && y !in order
    ensures y !in Without(order, x) && forall a :: a in Without(order, x) ==> a in order
  {
    WithoutElems(order, x);
    assert forall a :: a in Without(order, x) ==> a in Elems(order);
  }

  /** A block's tags are written, then the list is changed. */
  lemma OneThenLinks(m: Image, m': Image, b: Block, links: seq<int>, lo: int, hi: int, starts: set<int>)
    requires Fits(b, lo, hi) && LinksOnly(Tagged(m, b), m', links) && Linkable(links, lo, hi, starts)
    ensures Touches(m, m', lo, hi, starts) && Tags(m', [b])
  {
    assert Touches(m, m, lo, hi, starts);
    TouchSize(m, m, b, lo, hi, starts);
    TouchLinks(m, Tagged(m, b), m', links, lo, hi, starts);
    TagStays(Tagged(m, b), m', links, b);
  }

  /** The tags of two neighbouring blocks are written, then the list is changed. */
  lemma TwoThenLinks(m: Image, m': Image, c: Block, d: Block, links: seq<int>, lo: int, hi: int, starts: set<int>)
    requires Fits(c, lo, hi) && Fits(d, lo, hi) && c.End() <= d.addr
    requires LinksOnly(Tagged(Tagged(m, c), d), m', links) && Linkable(links, lo, hi, starts)
    ensures Touches(m, m', lo, hi, starts) && Tags(m', [c, d])
  {
    var m2 := Tagged(Tagged(m, c), d);
    assert Touches(m, m, lo, hi, starts);
    TouchSize(m, m, c, lo, hi, starts);
    TouchSize(m, Tagged(m, c), d, lo, hi, starts);
    TouchLinks(m, m2, m', links, lo, hi, starts);
    assert Tag(m2, c) && Tag(m2, d);
    TagStays(m2, m', links, c);
    TagStays(m2, m', links, d);
  }

  /** A block written behind the tiling touches none of its blocks. */
  lemma GrownTags(st: State, st': State, m: Image, b: Block)
    requires st'.blocks == st.blocks + [b]
    requires Tiled(st) && Tags(m, st.blocks) && b.addr == st.brk && b.size >= 16 && !b.free
    ensures Tags(Tagged(m, b), st'.blocks)
    ensures Swapped(st, m, st', Tagged(m, b), {}, {b})
  {
    hide Chain, Coalesced, Distinct;
    ChainWithin(st.blocks, st.base, st.brk);
    UsedConcat(st.blocks, [b]);
    assert Used([b]) == {b};
    forall c | c in Used(st.blocks)
      ensures Payload(Tagged(m, b), c) == Payload(m, c)
    {
    }
  }

  function CopyAt(m: Image, dst: int, src: int, n: int, a: int): int {
    if dst <= a < dst + n && a % 4 == 0 then At(m, a - dst + src) else At(m, a)
  }

  /** After copying n bytes from src to dst. */
  ghost predicate Copied(m: Image, m': Image, dst: int, src: int, n: int) {
    forall a :: At(m', a) == CopyAt(m, dst, src, n, a)
  }

  lemma CopyNone(m: Image, dst: int, src: int)
    ensures Copied(m, m, dst, src, 0)
  {
  }

  /** The word to be copied next has not been overwritten. */
  lemma CopySource(m: Image, m1: Image, dst: int, src: int, k: int, n: int)
    requires Copied(m, m1, dst, src, k) && 0 <= k < n && (dst <= src || src + n <= dst)
    ensures At(m1, src + k) == At(m, src + k)
  {
    assert !(dst <= src + k < dst + k);
  }

  lemma CopyOne(m: Image, m1: Image, dst: int, src: int, k: int)
    requires Copied(m, m1, dst, src, k) && k >= 0 && k % 4 == 0 && dst % 4 == 0
    ensures Copied(m, m1[dst + k := At(m, src + k)], dst, src, k + 4)
  {
    var m2 := m1[dst + k := At(m, src + k)];
    forall a
      ensures At(m2, a) == CopyAt(m, dst, src, k + 4, a)
    {
      assert dst + k < a < dst + k + 4 ==> a % 4 != 0;
      if a != dst + k {
        assert At(m2, a) == At(m1, a);
      } else {
        assert a - dst + src == src + k;
      }
    }
  }

  lemma CopiedBytes(m: Image, m': Image, dst: int, src: int, n: int, k: int)
    requires Copied(m, m', dst, src, n) && dst % 4 == 0 && 0 <= k <= n
    ensures Bytes(m', dst, k) == Bytes(m, src, k)
  {
    forall i | 0 <= i < k / 4 ensures At(m', dst + 4 * i) == At(m, src + 4 * i) {
      assert (dst + 4 * i) % 4 == 0;
    }
  }

  lemma PrefixBytes(m: Image, p: int, n: int, k: int)
    requires 0 <= k <= n
    ensures k / 4 <= n / 4 && Bytes(m, p, n)[..k / 4] == Bytes(m, p, k)
  {
  }

  /** The first k payload bytes of a used block survive tag writes elsewhere and any relinking. */
  lemma PrefixKept(st: State, m: Image, m1: Image, m': Image, b: Block, k: int, links: seq<int>)
    requires Tiled(st) && b in Used(st.blocks) && 0 <= k <= b.size
    requires forall a :: b.addr + HEADER <= a < b.addr + HEADER + k ==> At(m1, a) == At(m, a)
    requires LinksOnly(m1, m', links)
    requires forall x :: x in links ==> x in FreeAddrs(st.blocks) || b.addr + HEADER + k <= x
    ensures Bytes(m', b.addr + HEADER, k) == Bytes(m, b.addr + HEADER, k)
  {
    hide Tiled, FreeAddrs;
    UsedIs(st, b);
    forall i | 0 <= i < k / 4 ensures At(m', b.addr + HEADER + 4 * i) == At(m, b.addr + HEADER + 4 * i) {
      var a := b.addr + HEADER + 4 * i;
      forall x | x in links ensures a != x && a - 4 != x {
        if x in FreeAddrs(st.blocks) { StartsApart(st, x, b); }
      }
      assert a !in links && a - 4 !in links && At(m1, a) == At(m, a);
    }
  }

  lemma TagCommutes(m: Image, m1: Image, b: Block, links: seq<int>)
    requires LinksOnly(m, m1, links)
    ensures LinksOnly(Tagged(m, b), Tagged(m1, b), links)
  {
  }

  lemma SwapTwice(st: State, m: Image, st1: State, m1: Image, st2: State, m2: Image,
                  gone: set<Block>, mid: set<Block>, new_: set<Block>)
    requires Swapped(st, m, st1, m1, gone, mid) && Swapped(st1, m1, st2, m2, mid, new_)
    requires mid !! Used(st.blocks) - gone
    ensures Swapped(st, m, st2, m2, gone, new_)
  {
    assert Used(st1.blocks) - mid == Used(st.blocks) - gone;
  }

  lemma StaysTagged(m: Image, m': Image, bs: seq<Block>, i: nat, links: seq<int>)
    requires Tags(m, bs) && i < |bs| && LinksOnly(m, m', links) && Aligned(links)
    requires bs[i].addr % 16 == 0 && bs[i].size % 16 == 0
    ensures At(m', bs[i].addr + 8) == bs[i].Tag()
  {
    assert bs[i] in bs && Tag(m, bs[i]);
    TagStays(m, m', links, bs[i]);
  }

  lemma TaggedAround(m: Image, b: Block, lo: int, hi: int)
    requires b.addr + 8 < lo && hi <= b.End() - 4
    ensures forall a :: lo <= a < hi ==> At(Tagged(m, b), a) == At(m, a)
  {
  }

  lemma LinksFree(order: seq<int>, starts: set<int>)
    requires Elems(order) == starts
    ensures forall x :: x in order ==> x in starts
  {
    assert forall x :: x in order ==> x in Elems(order);
  }

  /** Copying into the payload of one used block changes neither tags nor links. */
  lemma CopiedInside(st: State, m: Image, m': Image, j: nat, src: int, n: int, first: int)
    requires Tiled(st) && Tags(m, st.blocks) && Listed(m, st.order, first)
    requires j < |st.blocks| && !st.blocks[j].free && 0 <= n <= st.blocks[j].size
    requires Copied(m, m', st.blocks[j].addr + HEADER, src, n)
    ensures Touches(m, m', st.blocks[j].addr, st.blocks[j].End(), FreeAddrs(st.blocks))
    ensures Tags(m', [st.blocks[j]]) && Listed(m', st.order, first)
  {
    hide Chain, Coalesced, Distinct, FreeAddrs;
    var b := st.blocks[j];
    assert b in st.blocks && b in Used(st.blocks);
    forall a | a < b.addr + HEADER || b.addr + HEADER + n <= a ensures At(m', a) == At(m, a) {
      assert At(m', a) == CopyAt(m, b.addr + HEADER, src, n, a);
    }
    LinksFree(st.order, FreeAddrs(st.blocks));
    UsedIs(st, b);
    forall a | a in st.order ensures At(m', a) == At(m, a) && At(m', a + 4) == At(m, a + 4) {
      StartsApart(st, a, b);
    }
    ListedFrame(m, m', st.order, first);
  }

  lemma SwapThenDrop(st: State, m: Image, st1: State, m1: Image, st2: State, m2: Image, b: Block, c: Block)
    requires Swapped(st, m, st1, m1, {}, {c}) && Swapped(st1, m1, st2, m2, {b}, {})
    requires b in Used(st.blocks) && b != c
    ensures Swapped(st, m, st2, m2, {b}, {c})
  {
  }

  /** What a replaced block means for the callers: one pointer for another, room for the request, and the old bytes as far as
      both have room for them. */
  lemma LiveResized(st: State, st': State, m: Image, m': Image, b: Block, c: Block, size: int)
    requires Tiled(st) && Tiled(st') && Swapped(st, m, st', m', {b}, {c})
    requires (c == b || c !in Used(st.blocks)) && size <= c.size
    requires var n := if b.size <= c.size then b.size else c.size; Bytes(m', c.addr + HEADER, n) == Bytes(m, b.addr + HEADER, n)
    ensures var was, now, p, q := Live(m, st.blocks), Live(m', st'.blocks), b.addr + HEADER, c.addr + HEADER;
      && p in was && q in now && 4 * |now[q]| >= size && now - {q} == was - {p} && SamePrefix(was[p], now[q])
  {
    hide Tiled, Live, SamePrefix, Used;
    LiveReplace(st, st', m, m', b, c);
    assert b in {b} && c in Used(st'.blocks);
    SizeIsWords(st, b);
    SizeIsWords(st', c);
    hide Swapped;
    PrefixOf(m, m', b, c, if b.size <= c.size then b.size else c.size);
  }


  lemma PrefixOf(m: Image, m': Image, b: Block, c: Block, n: int)
    requires b.size >= 0 && c.size >= 0 && n == (if b.size <= c.size then b.size else c.size)
    requires Bytes(m', c.addr + HEADER, n) == Bytes(m, b.addr + HEADER, n)
    ensures SamePrefix(Payload(m, b), Payload(m', c))
  {
    PrefixBytes(m, b.addr + HEADER, b.size, n);
    PrefixBytes(m', c.addr + HEADER, c.size, n);
    forall k | 0 <= k < |Payload(m, b)| && k < |Payload(m', c)| ensures Payload(m', c)[k] == Payload(m, b)[k] {
      assert k < n / 4;
      assert Payload(m', c)[..n / 4][k] == Payload(m, b)[..n / 4][k];
    }
  }
}
