/** What every run of the heap operations keeps, proved on the tilings of HeapModel. */
module HeapProperties {
  import opened HeapModel

  // Requests that the 32-bit rounding does not wrap for.
  const MAX_REQUEST := 0xFFFF_FFE0

  function LastAddr(bs: seq<Block>): int { if bs == [] then 0 else bs[|bs| - 1].addr }

  /** Everything but the position of `tail`. */
  ghost predicate Tiled(st: State) {
    && 0 < st.base <= st.brk <= st.mapped < 0x1_0000_0000 && st.limit < 0xFFFF_F000
    && Chain(st.blocks, st.base, st.brk)
    && Coalesced(st.blocks)
    && Distinct(st.order)
    && Elems(st.order) == FreeAddrs(st.blocks)
  }

  ghost predicate Inv(st: State) { Tiled(st) && st.tail == LastAddr(st.blocks) }

  lemma NothingTiled(st: State)
    requires st.blocks == [] && st.order == [] && 0 < st.base == st.brk <= st.mapped < 0x1_0000_0000
    requires st.limit < 0xFFFF_F000 && st.base % 16 == 0
    ensures Tiled(st)
  {
  }

  function Used(bs: seq<Block>): set<Block> { set b | b in bs && !b.free }

  // ---- Splicing -------------------------------------------------------------------------------

  lemma UsedConcat(x: seq<Block>, y: seq<Block>)
    ensures Used(x + y) == Used(x) + Used(y)
  {
  }

  ghost predicate Joins(x: seq<Block>, y: seq<Block>) {
    x == [] || y == [] || !(x[|x| - 1].free && y[0].free)
  }

  lemma CoalescedConcat(x: seq<Block>, y: seq<Block>)
    ensures Coalesced(x + y) <==> Coalesced(x) && Coalesced(y) && Joins(x, y)
  {
    var z := x + y;
    if Coalesced(z) {
      forall i, j | 0 <= i && j == i + 1 && j < |x| ensures !(x[i].free && x[j].free) {
        assert z[i] == x[i] && z[j] == x[j];
      }
      forall i, j | 0 <= i && j == i + 1 && j < |y| ensures !(y[i].free && y[j].free) {
        assert z[|x| + i] == y[i] && z[|x| + j] == y[j];
      }
      if x != [] && y != [] {
        assert z[|x| - 1] == x[|x| - 1] && z[|x|] == y[0];
      }
    }
  }

  /** The part of the tiling from lo to hi, replaced by mid. */
  function Splice(bs: seq<Block>, lo: nat, hi: nat, mid: seq<Block>): seq<Block>
    requires lo <= hi <= |bs|
  {
    bs[..lo] + mid + bs[hi..]
  }

  lemma SliceCoalesced(bs: seq<Block>, lo: nat, hi: nat)
    requires lo < hi <= |bs| && Coalesced(bs)
    ensures Coalesced(bs[..lo]) && Coalesced(bs[hi..])
  {
    assert bs == bs[..lo] + bs[lo..];
    CoalescedConcat(bs[..lo], bs[lo..]);
    assert bs == bs[..hi] + bs[hi..];
    CoalescedConcat(bs[..hi], bs[hi..]);
  }

  lemma SpliceCoalesced(bs: seq<Block>, lo: nat, hi: nat, mid: seq<Block>)
    requires lo < hi <= |bs| && Coalesced(bs) && mid != []
    requires Coalesced(mid)
    requires lo > 0 ==> !(bs[lo - 1].free && mid[0].free)
    requires hi < |bs| ==> !(mid[|mid| - 1].free && bs[hi].free)
    ensures Coalesced(Splice(bs, lo, hi, mid))
  {
    SliceCoalesced(bs, lo, hi);
    CoalescedConcat(bs[..lo], mid);
    CoalescedConcat(bs[..lo] + mid, bs[hi..]);
  }

  lemma ChainHead(bs: seq<Block>, lo: int, hi: int)
    requires Chain(bs, lo, hi) && bs != []
    ensures bs[0].addr == lo && bs[0].size >= 16 && bs[0].size % 16 == 0 && lo % 16 == 0
    ensures |bs| > 1 ==> bs[1].addr == bs[0].End()
    ensures |bs| == 1 ==> bs[0].End() == hi
  {
    if |bs| > 1 { assert bs[1..][0] == bs[1]; }
  }

  /** A block starts where its left neighbour ends. */
  lemma Neighbours(bs: seq<Block>, i: nat, base: int, brk: int)
    requires i < |bs| && Chain(bs, base, brk)
    ensures bs[i].addr % 16 == 0 && bs[i].size % 16 == 0 && bs[i].size >= 16
    ensures base <= bs[i].addr && bs[i].End() <= brk
    ensures i + 1 < |bs| ==> bs[i + 1].addr == bs[i].End()
    ensures i + 1 == |bs| <==> bs[i].End() == brk
    ensures i == 0 <==> bs[i].addr == base
  {
    hide Chain;
    var x, y := bs[..i], bs[i..];
    assert bs == x + y;
    ChainWithin(bs, base, brk);
    ChainOrdered(bs, base, brk);
    ChainSplit(x, y, base, brk);
    ChainHead(y, bs[i].addr, brk);
    ChainHead(bs, base, brk);
    if i > 0 { assert bs[0].End() <= bs[i].addr; }
    if i + 1 < |bs| { assert y[1] == bs[i + 1]; }
  }

  lemma SpliceChain(bs: seq<Block>, lo: nat, hi: nat, mid: seq<Block>, base: int, brk: int)
    requires lo < hi <= |bs| && Chain(bs, base, brk)
    requires Chain(mid, bs[lo].addr, bs[hi - 1].End())
    ensures Chain(Splice(bs, lo, hi, mid), base, brk)
  {
    hide Chain;
    assert bs == bs[..lo] + bs[lo..hi] + bs[hi..];
    assert StartOf(bs[hi..], brk) == bs[hi - 1].End() by {
      Neighbours(bs, hi - 1, base, brk);
    }
    ChainSplice(bs[..lo], bs[lo..hi], mid, bs[hi..], base, brk);
  }

  /** Two blocks of a tiling with one address are the same. */
  lemma AtIndex(bs: seq<Block>, i: nat, base: int, brk: int)
    requires i < |bs| && Chain(bs, base, brk)
    ensures IndexOf(bs, bs[i].addr) == i
  {
    hide Chain;
    ChainWithin(bs, base, brk);
    ChainOrdered(bs, base, brk);
    var j := IndexOf(bs, bs[i].addr);
    assert bs[i] in bs;
    assert j < |bs|;
    assert !(i < j) && !(j < i);
  }

  lemma PartDisjoint(bs: seq<Block>, lo: nat, hi: nat, x: seq<Block>, base: int, brk: int)
    requires lo < hi <= |bs| && Chain(bs, base, brk)
    requires x == bs[..lo] || x == bs[hi..]
    ensures FreeAddrs(x) !! FreeAddrs(bs[lo..hi]) && Used(x) !! Used(bs[lo..hi])
  {
    hide Chain;
    ChainWithin(bs, base, brk);
    ChainOrdered(bs, base, brk);
    forall b, c | b in bs[lo..hi] && c in x
      ensures b.addr != c.addr
    {
      OutsidePart(bs, lo, hi, x, b, c);
    }
  }

  lemma OutsidePart(bs: seq<Block>, lo: nat, hi: nat, x: seq<Block>, b: Block, c: Block)
    requires lo < hi <= |bs| && (x == bs[..lo] || x == bs[hi..]) && b in bs[lo..hi] && c in x
    requires forall i, j :: 0 <= i < j < |bs| ==> bs[i].addr < bs[j].addr
    ensures b.addr != c.addr
  {
    var i :| lo <= i < hi && bs[i] == b;
    var k :| 0 <= k < |x| && x[k] == c;
    var j := if x == bs[..lo] then k else hi + k;
    assert bs[j] == c;
  }

  lemma SpliceSets(bs: seq<Block>, lo: nat, hi: nat, mid: seq<Block>, base: int, brk: int)
    requires lo < hi <= |bs| && Chain(bs, base, brk)
    ensures FreeAddrs(Splice(bs, lo, hi, mid)) == FreeAddrs(bs) - FreeAddrs(bs[lo..hi]) + FreeAddrs(mid)
    ensures Used(Splice(bs, lo, hi, mid)) == Used(bs) - Used(bs[lo..hi]) + Used(mid)
  {
    PartDisjoint(bs, lo, hi, bs[..lo], base, brk);
    PartDisjoint(bs, lo, hi, bs[hi..], base, brk);
    var x, y := bs[..lo], bs[hi..];
    assert bs == x + bs[lo..hi] + y;
    ThreeParts(x, bs[lo..hi], y);
    ThreeParts(x, mid, y);
  }

  lemma ThreeParts(x: seq<Block>, mid: seq<Block>, y: seq<Block>)
    ensures FreeAddrs(x + mid + y) == FreeAddrs(x) + FreeAddrs(mid) + FreeAddrs(y)
    ensures Used(x + mid + y) == Used(x) + Used(mid) + Used(y)
  {
    FreeAddrsConcat(x + mid, y);
    FreeAddrsConcat(x, mid);
    UsedConcat(x + mid, y);
    UsedConcat(x, mid);
  }

  // ---- One operation --------------------------------------------------------------------------

  lemma SpliceKeeps(st: State, st': State, lo: nat, hi: nat, mid: seq<Block>)
    requires Tiled(st) && lo < hi <= |st.blocks| && mid != []
    requires st' == st.(blocks := Splice(st.blocks, lo, hi, mid), order := st'.order, tail := st'.tail)
    requires Chain(mid, st.blocks[lo].addr, st.blocks[hi - 1].End())
    requires Coalesced(mid)
    requires lo > 0 ==> !(st.blocks[lo - 1].free && mid[0].free)
    requires hi < |st.blocks| ==> !(mid[|mid| - 1].free && st.blocks[hi].free)
    requires Distinct(st'.order)
    requires Elems(st'.order) == Elems(st.order) - FreeAddrs(st.blocks[lo..hi]) + FreeAddrs(mid)
    ensures Tiled(st')
    ensures Used(st'.blocks) == Used(st.blocks) - Used(st.blocks[lo..hi]) + Used(mid)
  {
    hide Chain, Coalesced, Distinct, FreeAddrs, Used;
    SpliceChain(st.blocks, lo, hi, mid, st.base, st.brk);
    SpliceCoalesced(st.blocks, lo, hi, mid);
    SpliceSets(st.blocks, lo, hi, mid, st.base, st.brk);
  }

  lemma SpliceLast(bs: seq<Block>, lo: nat, hi: nat, mid: seq<Block>)
    requires lo < hi <= |bs| && mid != []
    ensures LastAddr(Splice(bs, lo, hi, mid)) == if hi < |bs| then LastAddr(bs) else mid[|mid| - 1].addr
  {
  }

  /** A free block is in the list, and a list element is a free block. */
  lemma InOrder(st: State, i: nat)
    requires Tiled(st) && i < |st.blocks|
    ensures st.blocks[i].free <==> st.blocks[i].addr in st.order
  {
    var b := st.blocks[i];
    if b.free {
      assert b.addr in FreeAddrs(st.blocks);
      assert b.addr in Elems(st.order);
    } else if b.addr in st.order {
      assert b.addr in Elems(st.order);
      var c :| c in st.blocks && c.free && c.addr == b.addr;
      var j :| 0 <= j < |st.blocks| && st.blocks[j] == c;
      AtIndex(st.blocks, i, st.base, st.brk);
      AtIndex(st.blocks, j, st.base, st.brk);
    }
  }

  /** No free block of the tiling starts strictly inside another block. */
  lemma FreshAddr(st: State, i: nat, r: int)
    requires Tiled(st) && i < |st.blocks| && st.blocks[i].addr < r < st.blocks[i].End()
    ensures r !in st.order
  {
    if r in st.order {
      assert r in Elems(st.order);
      var c :| c in st.blocks && c.free && c.addr == r;
      var b := st.blocks[i];
      assert b in st.blocks;
      ChainWithin(st.blocks, st.base, st.brk);
      ChainDisjoint(st.blocks, st.base, st.brk);
      assert false;
    }
  }

  lemma Push(s: seq<int>, x: int)
    requires Distinct(s) && x !in s
    ensures Distinct([x] + s) && Elems([x] + s) == Elems(s) + {x}
  {
  }

  /** The size of the block that malloc carves out of a free block of `size` bytes. */
  function Granted(size: int, need: int): int { if size - need < SPLIT_MIN then size else need }

  lemma JoinsAt(bs: seq<Block>, i: nat)
    requires Coalesced(bs) && i < |bs|
    ensures i > 0 ==> !(bs[i - 1].free && bs[i].free)
    ensures i + 1 < |bs| ==> !(bs[i].free && bs[i + 1].free)
  {
    if i > 0 { assert !(bs[i - 1].free && bs[i].free); }
  }

  lemma One(b: Block)
    requires b.size >= 16 && b.size % 16 == 0 && b.addr % 16 == 0
    ensures Chain([b], b.addr, b.End()) && Coalesced([b])
    ensures FreeAddrs([b]) == if b.free then {b.addr} else {}
    ensures Used([b]) == if b.free then {} else {b}
  {
    assert [b][1..] == [];
  }

  lemma Two(b: Block, c: Block)
    requires b.size >= 16 && b.size % 16 == 0 && b.addr % 16 == 0
    requires c.size >= 16 && c.size % 16 == 0 && c.addr == b.End()
    requires !(b.free && c.free)
    ensures Chain([b, c], b.addr, c.End()) && Coalesced([b, c])
    ensures FreeAddrs([b, c]) == FreeAddrs([b]) + FreeAddrs([c])
    ensures Used([b, c]) == Used([b]) + Used([c])
  {
    One(b);
    One(c);
    assert [b, c] == [b] + [c];
    ChainConcat([b], [c], b.addr, b.End(), c.End());
    CoalescedConcat([b], [c]);
  }

  /** Only the last block carries the address that `tail` should have. */
  lemma LastOnly(st: State, i: nat)
    requires Tiled(st) && i < |st.blocks|
    ensures st.blocks[i].addr == LastAddr(st.blocks) <==> i + 1 == |st.blocks|
  {
    AtIndex(st.blocks, i, st.base, st.brk);
    AtIndex(st.blocks, |st.blocks| - 1, st.base, st.brk);
  }

  lemma GrowKeeps(st: State, need: int)
    requires Inv(st) && 16 <= need && need % 16 == 0 && CanGrow(st, need)
    ensures Inv(Grow(st, need))
    ensures Used(Grow(st, need).blocks) == Used(st.blocks) + {Block(st.brk, need, false)}
  {
    var b := Block(st.brk, need, false);
    ChainWithin(st.blocks, st.base, st.brk);
    One(b);
    ChainConcat(st.blocks, [b], st.base, st.brk, b.End());
    CoalescedConcat(st.blocks, [b]);
    FreeAddrsConcat(st.blocks, [b]);
    UsedConcat(st.blocks, [b]);
  }

  /** Two neighbouring blocks and the overhead between them make one block. */
  lemma Join(x: Block, y: Block, free: bool)
    requires x.End() == y.addr && x.size % 16 == 0 && x.size >= 16 && y.size % 16 == 0 && y.size >= 16
    ensures var z := Block(x.addr, x.size + OVERHEAD + y.size, free); z.size % 16 == 0 && z.size >= 16 && z.End() == y.End()
  {
  }

  /** A block cut in two, with a new header and trailer in between. */
  lemma Cut(b: Block, need: int)
    requires b.addr % 16 == 0 && b.size % 16 == 0 && need % 16 == 0 && 16 <= need && need + SPLIT_MIN <= b.size
    ensures var c := Block(b.addr, need, false); var d := Block(c.End(), b.size - need - OVERHEAD, true);
            d.addr % 16 == 0 && d.size % 16 == 0 && d.size >= 16 && d.End() == b.End()
  {
  }

  lemma AfterPush(s: seq<int>, x: int, y: int)
    requires x != y
    ensures Without([x] + s, y) == [x] + Without(s, y)
  {
    assert ([x] + s)[1..] == s;
  }

  /** Where block i of a tiling lies. */
  lemma Place(st: State, i: nat)
    requires Tiled(st) && i < |st.blocks|
    ensures var bs, b := st.blocks, st.blocks[i];
            && b.addr % 16 == 0 && b.size % 16 == 0 && b.size >= 16 && st.base <= b.addr && b.End() <= st.brk
            && b.addr % 4 == 0 && b.End() % 4 == 0 && b.Tag() / 2 * 2 == b.size && (b.Tag() % 2 == 1 <==> b.free)
            && (i + 1 < |bs| ==> b.End() == bs[i + 1].addr)
            && (i > 0 ==> bs[i - 1].End() == b.addr)
            && (b.addr == st.base <==> i == 0)
            && (b.addr == LastAddr(bs) <==> i + 1 == |bs|)
            && (b.free <==> b.addr in st.order)
            && IndexOf(bs, b.addr) == i && b in bs
  {
    hide Chain, Coalesced, Distinct;
    Neighbours(st.blocks, i, st.base, st.brk);
    if i > 0 { Neighbours(st.blocks, i - 1, st.base, st.brk); }
    LastOnly(st, i);
    InOrder(st, i);
    AtIndex(st.blocks, i, st.base, st.brk);
    SixteensAre(st.blocks[i]);
  }

  lemma SixteensAre(b: Block)
    requires b.addr % 16 == 0 && b.size % 16 == 0
    ensures b.addr % 4 == 0 && b.End() % 4 == 0 && b.Tag() / 2 * 2 == b.size && (b.Tag() % 2 == 1 <==> b.free)
  {
    var q := BySixteen(b.addr);
    var r := BySixteen(b.size);
    FourDivides(b.addr, 4 * q);
    FourDivides(b.End(), 4 * q + 4 * r + 4);
    assert b.size == 2 * (8 * r);
  }

  /** What the splices below need to know about block i. */
  lemma Around(st: State, i: nat)
    requires Inv(st) && i < |st.blocks|
    ensures var bs := st.blocks;
            && bs[i].addr % 16 == 0 && bs[i].size % 16 == 0 && bs[i].size >= 16
            && (i > 0 ==> bs[i - 1].End() == bs[i].addr && !(bs[i - 1].free && bs[i].free))
            && (bs[i].free <==> bs[i].addr in st.order)
            && (bs[i].addr == st.tail <==> i + 1 == |bs|)
            && (bs[i].addr == st.base <==> i == 0)
  {
    Neighbours(st.blocks, i, st.base, st.brk);
    JoinsAt(st.blocks, i);
    InOrder(st, i);
    LastOnly(st, i);
    if i > 0 { Neighbours(st.blocks, i - 1, st.base, st.brk); }
  }

  lemma NextFreeMeans(st: State, i: nat)
    requires Inv(st) && i < |st.blocks|
    ensures NextFree(st, i) <==> i + 1 < |st.blocks| && st.blocks[i + 1].free
    ensures PrevFree(st, i) <==> i > 0 && st.blocks[i - 1].free
  {
    Around(st, i);
  }

  lemma WordsAligned(a: int)
    requires a % 16 == 0
    ensures a % 4 == 0 && (a + 4) % 4 == 0 && (a + 8) % 4 == 0 && (a - 4) % 4 == 0
  {
  }

  lemma SixteenApart(a: int, b: int)
    requires a % 16 == 0 && b % 16 == 0 && a < b
    ensures a + 16 <= b
  {
    var q := BySixteen(a);
    var r := BySixteen(b);
    assert q < r;
  }

  lemma SixteenEnds(b: Block)
    requires b.addr % 16 == 0 && b.size % 16 == 0
    ensures b.End() % 16 == 0
  {
  }

  lemma SixteenBetween(b: Block)
    requires b.addr % 16 == 0 && b.End() % 16 == 0
    ensures b.size % 16 == 0
  {
  }

  /** The blocks from lo to hi become the one block m. */
  lemma MergeKeeps(st: State, st': State, lo: nat, hi: nat, m: Block)
    requires Inv(st) && lo < hi <= |st.blocks|
    requires st' == st.(blocks := Splice(st.blocks, lo, hi, [m]), order := st'.order, tail := st'.tail)
    requires m.addr == st.blocks[lo].addr && m.End() == st.blocks[hi - 1].End()
    requires m.free && lo > 0 ==> !st.blocks[lo - 1].free
    requires m.free && hi < |st.blocks| ==> !st.blocks[hi].free
    requires Distinct(st'.order)
    requires Elems(st'.order) == Elems(st.order) - FreeAddrs(st.blocks[lo..hi]) + if m.free then {m.addr} else {}
    requires st'.tail == if hi < |st.blocks| then st.tail else m.addr
    ensures Inv(st')
    ensures Used(st'.blocks) == Used(st.blocks) - Used(st.blocks[lo..hi]) + if m.free then {} else {m}
  {
    hide Chain, Coalesced, Distinct, FreeAddrs, Used;
    Neighbours(st.blocks, lo, st.base, st.brk);
    Neighbours(st.blocks, hi - 1, st.base, st.brk);
    ChainOrdered(st.blocks, st.base, st.brk);
    SixteenEnds(st.blocks[hi - 1]);
    SixteenBetween(m);
    One(m);
    SpliceKeeps(st, st', lo, hi, [m]);
    SpliceLast(st.blocks, lo, hi, [m]);
  }

  function FreePart(b: Block): set<int> { if b.free then {b.addr} else {} }

  function UsedPart(b: Block): set<Block> { if b.free then {} else {b} }

  lemma Single(bs: seq<Block>, i: nat)
    requires i < |bs|
    ensures FreeAddrs(bs[i..i + 1]) == FreePart(bs[i]) && Used(bs[i..i + 1]) == UsedPart(bs[i])
  {
    assert bs[i..i + 1] == [bs[i]];
  }

  lemma Pair(bs: seq<Block>, i: nat)
    requires i + 1 < |bs|
    ensures FreeAddrs(bs[i..i + 2]) == FreePart(bs[i]) + FreePart(bs[i + 1])
    ensures Used(bs[i..i + 2]) == UsedPart(bs[i]) + UsedPart(bs[i + 1])
  {
    assert bs[i..i + 2] == bs[i..i + 1] + bs[i + 1..i + 2];
    Single(bs, i);
    Single(bs, i + 1);
    FreeAddrsConcat(bs[i..i + 1], bs[i + 1..i + 2]);
    UsedConcat(bs[i..i + 1], bs[i + 1..i + 2]);
  }

  lemma Triple(bs: seq<Block>, i: nat)
    requires i + 2 < |bs|
    ensures FreeAddrs(bs[i..i + 3]) == FreePart(bs[i]) + FreePart(bs[i + 1]) + FreePart(bs[i + 2])
    ensures Used(bs[i..i + 3]) == UsedPart(bs[i]) + UsedPart(bs[i + 1]) + UsedPart(bs[i + 2])
  {
    assert bs[i..i + 3] == bs[i..i + 2] + bs[i + 2..i + 3];
    Pair(bs, i);
    Single(bs, i + 2);
    FreeAddrsConcat(bs[i..i + 2], bs[i + 2..i + 3]);
    UsedConcat(bs[i..i + 2], bs[i + 2..i + 3]);
  }

  lemma TakeWhole(st: State, a: int, need: int)
    requires Inv(st) && Has(st.blocks, a, true) && need <= SizeAt(st.blocks, a) < need + SPLIT_MIN
    ensures Inv(Take(st, a, need))
    ensures Used(Take(st, a, need).blocks) == Used(st.blocks) + {Block(a, SizeAt(st.blocks, a), false)}
  {
    hide Chain, Coalesced, Distinct, FreeAddrs, Used;
    var bs, i := st.blocks, IndexOf(st.blocks, a);
    Around(st, i);
    WithoutElems(st.order, a);
    Single(bs, i);
    MergeKeeps(st, Take(st, a, need), i, i + 1, Block(a, bs[i].size, false));
  }

  /** The blocks from lo to hi become the used block c followed by the free block d. */
  lemma CutKeeps(st: State, st': State, lo: nat, hi: nat, c: Block, d: Block)
    requires Inv(st) && lo < hi <= |st.blocks| && !c.free && d.free
    requires st' == st.(blocks := Splice(st.blocks, lo, hi, [c, d]), order := st'.order, tail := st'.tail)
    requires c.addr == st.blocks[lo].addr && d.addr == c.End() && d.End() == st.blocks[hi - 1].End()
    requires c.size >= 16 && c.size % 16 == 0 && d.size >= 16
    requires hi < |st.blocks| ==> !st.blocks[hi].free
    requires Distinct(st'.order)
    requires Elems(st'.order) == Elems(st.order) - FreeAddrs(st.blocks[lo..hi]) + {d.addr}
    ensures Tiled(st')
    ensures LastAddr(st'.blocks) == if hi < |st.blocks| then st.tail else d.addr
    ensures Used(st'.blocks) == Used(st.blocks) - Used(st.blocks[lo..hi]) + {c}
  {
    hide Chain, Coalesced, Distinct, FreeAddrs, Used;
    Neighbours(st.blocks, lo, st.base, st.brk);
    Neighbours(st.blocks, hi - 1, st.base, st.brk);
    SixteenEnds(st.blocks[hi - 1]);
    SixteenEnds(c);
    SixteenBetween(d);
    One(c);
    One(d);
    Two(c, d);
    SpliceKeeps(st, st', lo, hi, [c, d]);
    SpliceLast(st.blocks, lo, hi, [c, d]);
  }

  lemma TakePart(st: State, a: int, need: int)
    requires Inv(st) && Has(st.blocks, a, true)
    requires 16 <= need && need % 16 == 0 && need + SPLIT_MIN <= SizeAt(st.blocks, a)
    ensures Inv(Take(st, a, need))
    ensures Used(Take(st, a, need).blocks) == Used(st.blocks) + {Block(a, need, false)}
  {
    hide Chain, Coalesced, Distinct, FreeAddrs, Used;
    var bs, i := st.blocks, IndexOf(st.blocks, a);
    var r := a + OVERHEAD + need;
    Around(st, i);
    if i + 1 < |bs| { Around(st, i + 1); }
    FreshAddr(st, i, r);
    WithoutElems(st.order, a);
    assert r !in Elems(Without(st.order, a));
    Push(Without(st.order, a), r);
    Single(bs, i);
    CutKeeps(st, Take(st, a, need), i, i + 1, Block(a, need, false), Block(r, bs[i].size - need - OVERHEAD, true));
  }

  lemma TakeKeeps(st: State, a: int, need: int)
    requires Inv(st) && Has(st.blocks, a, true)
    requires 16 <= need && need % 16 == 0 && need <= SizeAt(st.blocks, a)
    ensures Inv(Take(st, a, need))
    ensures Used(Take(st, a, need).blocks) == Used(st.blocks) + {Block(a, Granted(SizeAt(st.blocks, a), need), false)}
  {
    if SizeAt(st.blocks, a) - need < SPLIT_MIN { TakeWhole(st, a, need); } else { TakePart(st, a, need); }
  }

  lemma ReleaseBoth(st: State, a: int)
    requires Inv(st) && Has(st.blocks, a, false)
    requires PrevFree(st, IndexOf(st.blocks, a)) && NextFree(st, IndexOf(st.blocks, a))
    ensures Inv(Release(st, a))
    ensures Used(Release(st, a).blocks) == Used(st.blocks) - {Block(a, SizeAt(st.blocks, a), false)}
  {
    hide Chain, Coalesced, Distinct, FreeAddrs, Used;
    var bs, i := st.blocks, IndexOf(st.blocks, a);
    var p, b, n := bs[i - 1], bs[i], bs[i + 1];
    Around(st, i - 1);
    Around(st, i);
    Around(st, i + 1);
    if i + 2 < |bs| { Around(st, i + 2); }
    WithoutElems(st.order, n.addr);
    Triple(bs, i - 1);
    MergeKeeps(st, Release(st, a), i - 1, i + 2, Block(p.addr, p.size + 2 * OVERHEAD + b.size + n.size, true));
  }

  lemma ReleasePrev(st: State, a: int)
    requires Inv(st) && Has(st.blocks, a, false)
    requires PrevFree(st, IndexOf(st.blocks, a)) && !NextFree(st, IndexOf(st.blocks, a))
    ensures Inv(Release(st, a))
    ensures Used(Release(st, a).blocks) == Used(st.blocks) - {Block(a, SizeAt(st.blocks, a), false)}
  {
    hide Chain, Coalesced, Distinct, FreeAddrs, Used;
    var bs, i := st.blocks, IndexOf(st.blocks, a);
    var p, b := bs[i - 1], bs[i];
    NextFreeMeans(st, i);
    Around(st, i - 1);
    Around(st, i);
    Pair(bs, i - 1);
    MergeKeeps(st, Release(st, a), i - 1, i + 1, Block(p.addr, p.size + OVERHEAD + b.size, true));
  }

  lemma ReleaseNext(st: State, a: int)
    requires Inv(st) && Has(st.blocks, a, false)
    requires !PrevFree(st, IndexOf(st.blocks, a)) && NextFree(st, IndexOf(st.blocks, a))
    ensures Inv(Release(st, a))
    ensures Used(Release(st, a).blocks) == Used(st.blocks) - {Block(a, SizeAt(st.blocks, a), false)}
  {
    hide Chain, Coalesced, Distinct, FreeAddrs, Used;
    var bs, i := st.blocks, IndexOf(st.blocks, a);
    var b, n := bs[i], bs[i + 1];
    NextFreeMeans(st, i);
    Around(st, i);
    Around(st, i + 1);
    if i + 2 < |bs| { Around(st, i + 2); }
    WithoutElems(st.order, n.addr);
    assert b.addr !in Elems(Without(st.order, n.addr));
    Push(Without(st.order, n.addr), b.addr);
    Pair(bs, i);
    MergeKeeps(st, Release(st, a), i, i + 2, Block(a, b.size + OVERHEAD + n.size, true));
  }

  lemma ReleaseAlone(st: State, a: int)
    requires Inv(st) && Has(st.blocks, a, false)
    requires !PrevFree(st, IndexOf(st.blocks, a)) && !NextFree(st, IndexOf(st.blocks, a))
    ensures Inv(Release(st, a))
    ensures Used(Release(st, a).blocks) == Used(st.blocks) - {Block(a, SizeAt(st.blocks, a), false)}
  {
    hide Chain, Coalesced, Distinct, FreeAddrs, Used;
    var bs, i := st.blocks, IndexOf(st.blocks, a);
    NextFreeMeans(st, i);
    Around(st, i);
    Push(st.order, a);
    Single(bs, i);
    MergeKeeps(st, Release(st, a), i, i + 1, Block(a, bs[i].size, true));
  }

  lemma ReleaseKeeps(st: State, a: int)
    requires Inv(st) && Has(st.blocks, a, false)
    ensures Inv(Release(st, a))
    ensures Used(Release(st, a).blocks) == Used(st.blocks) - {Block(a, SizeAt(st.blocks, a), false)}
  {
    var i := IndexOf(st.blocks, a);
    if PrevFree(st, i) && NextFree(st, i) { ReleaseBoth(st, a); }
    else if PrevFree(st, i) { ReleasePrev(st, a); }
    else if NextFree(st, i) { ReleaseNext(st, a); }
    else { ReleaseAlone(st, a); }
  }

  /** The four outcomes of free as splices. */
  lemma ReleaseIs(st: State, a: int)
    requires Inv(st) && Has(st.blocks, a, false)
    ensures var bs, i, st' := st.blocks, IndexOf(st.blocks, a), Release(st, a); var b := bs[i];
      && (PrevFree(st, i) && NextFree(st, i) ==>
            var p, n := bs[i - 1], bs[i + 1];
            st' == st.(blocks := Splice(bs, i - 1, i + 2, [Block(p.addr, p.size + 2 * OVERHEAD + b.size + n.size, true)]),
                       order := Without(st.order, n.addr), tail := if st.tail == n.addr then p.addr else st.tail))
      && (PrevFree(st, i) && !NextFree(st, i) ==>
            var p := bs[i - 1];
            st' == st.(blocks := Splice(bs, i - 1, i + 1, [Block(p.addr, p.size + OVERHEAD + b.size, true)]),
                       tail := if st.tail == a then p.addr else st.tail))
      && (!PrevFree(st, i) && NextFree(st, i) ==>
            var n := bs[i + 1];
            st' == st.(blocks := Splice(bs, i, i + 2, [Block(a, b.size + OVERHEAD + n.size, true)]),
                       order := [a] + Without(st.order, n.addr), tail := if st.tail == n.addr then a else st.tail))
      && (!PrevFree(st, i) && !NextFree(st, i) ==>
            st' == st.(blocks := Splice(bs, i, i + 1, [Block(a, b.size, true)]), order := [a] + st.order))
  {
  }

  lemma AbsorbNextKeeps(st: State, a: int)
    requires Inv(st) && Has(st.blocks, a, false) && NextFree(st, IndexOf(st.blocks, a))
    ensures var i := IndexOf(st.blocks, a); var st' := AbsorbNext(st, i);
            && Inv(st')
            && Used(st'.blocks) == Used(st.blocks) - {st.blocks[i]}
               + {Block(a, st.blocks[i].size + OVERHEAD + st.blocks[i + 1].size, false)}
  {
    hide Chain, Coalesced, Distinct, FreeAddrs, Used;
    var bs, i := st.blocks, IndexOf(st.blocks, a);
    var b, n := bs[i], bs[i + 1];
    Around(st, i);
    Around(st, i + 1);
    WithoutElems(st.order, n.addr);
    Pair(bs, i);
    MergeKeeps(st, AbsorbNext(st, i), i, i + 2, Block(a, b.size + OVERHEAD + n.size, false));
  }

  lemma AbsorbPrevKeeps(st: State, a: int)
    requires Inv(st) && Has(st.blocks, a, false) && PrevFree(st, IndexOf(st.blocks, a))
    ensures var i := IndexOf(st.blocks, a); var st' := AbsorbPrev(st, i);
            && Inv(st')
            && Used(st'.blocks) == Used(st.blocks) - {st.blocks[i]}
               + {Block(st.blocks[i - 1].addr, st.blocks[i].size + OVERHEAD + st.blocks[i - 1].size, false)}
  {
    hide Chain, Coalesced, Distinct, FreeAddrs, Used;
    var bs, i := st.blocks, IndexOf(st.blocks, a);
    var b, p := bs[i], bs[i - 1];
    Around(st, i);
    Around(st, i - 1);
    WithoutElems(st.order, p.addr);
    Pair(bs, i - 1);
    MergeKeeps(st, AbsorbPrev(st, i), i - 1, i + 1, Block(p.addr, b.size + OVERHEAD + p.size, false));
  }

  /** Giving back the end of a block keeps the tiling; `tail` stays right unless it was the last block. */
  lemma ShrinkKeeps(st: State, a: int, need: int)
    requires Inv(st) && Has(st.blocks, a, false)
    requires 16 <= need && need % 16 == 0 && need + SPLIT_MIN <= SizeAt(st.blocks, a)
    ensures var i := IndexOf(st.blocks, a); var st' := Shrink(st, i, need);
            && Tiled(st')
            && (Inv(st') <==> a != st.tail)
            && Used(st'.blocks) == Used(st.blocks) - {st.blocks[i]} + {Block(a, need, false)}
  {
    var i := IndexOf(st.blocks, a);
    if NextFree(st, i) { ShrinkIntoNext(st, a, need); } else { ShrinkAlone(st, a, need); }
  }

  lemma ShrinkIntoNext(st: State, a: int, need: int)
    requires Inv(st) && Has(st.blocks, a, false) && NextFree(st, IndexOf(st.blocks, a))
    requires 16 <= need && need % 16 == 0 && need + SPLIT_MIN <= SizeAt(st.blocks, a)
    ensures var i := IndexOf(st.blocks, a); var st' := Shrink(st, i, need);
            && Inv(st')
            && Used(st'.blocks) == Used(st.blocks) - {st.blocks[i]} + {Block(a, need, false)}
  {
    hide Chain, Coalesced, Distinct, FreeAddrs, Used;
    var bs, i := st.blocks, IndexOf(st.blocks, a);
    var b, n := bs[i], bs[i + 1];
    var r := a + OVERHEAD + need;
    Around(st, i);
    Around(st, i + 1);
    if i + 2 < |bs| { Around(st, i + 2); }
    FreshAddr(st, i, r);
    WithoutElems(st.order, n.addr);
    assert r !in Elems(Without(st.order, n.addr));
    Push(Without(st.order, n.addr), r);
    Pair(bs, i);
    CutKeeps(st, Shrink(st, i, need), i, i + 2, Block(a, need, false), Block(r, b.size - need + n.size, true));
  }

  lemma ShrinkIs(st: State, i: nat, need: int)
    requires i + 1 < |st.blocks| && NextFree(st, i)
    ensures var b, n := st.blocks[i], st.blocks[i + 1]; var r := b.addr + OVERHEAD + need;
            Shrink(st, i, need) == st.(
              blocks := Splice(st.blocks, i, i + 2, [Block(b.addr, need, false), Block(r, b.size - need + n.size, true)]),
              order := [r] + Without(st.order, n.addr), tail := if st.tail == n.addr then r else st.tail)
  {
  }

  lemma ShrinkAlone(st: State, a: int, need: int)
    requires Inv(st) && Has(st.blocks, a, false) && !NextFree(st, IndexOf(st.blocks, a))
    requires 16 <= need && need % 16 == 0 && need + SPLIT_MIN <= SizeAt(st.blocks, a)
    ensures var i := IndexOf(st.blocks, a); var st' := Shrink(st, i, need);
            && Tiled(st')
            && LastAddr(st'.blocks) == (if a == st.tail then a + OVERHEAD + need else st.tail)
            && Used(st'.blocks) == Used(st.blocks) - {st.blocks[i]} + {Block(a, need, false)}
  {
    hide Chain, Coalesced, Distinct, FreeAddrs, Used;
    var bs, i := st.blocks, IndexOf(st.blocks, a);
    var r := a + OVERHEAD + need;
    Around(st, i);
    NextFreeMeans(st, i);
    FreshAddr(st, i, r);
    Push(st.order, r);
    Single(bs, i);
    CutKeeps(st, Shrink(st, i, need), i, i + 1, Block(a, need, false), Block(r, bs[i].size - need - OVERHEAD, true));
  }

  // ---- malloc, free and realloc as a whole ----------------------------------------------------

  lemma UsedIs(st: State, b: Block)
    requires Tiled(st) && b in Used(st.blocks)
    ensures Has(st.blocks, b.addr, false) && SizeAt(st.blocks, b.addr) == b.size
    ensures st.base <= b.addr && b.End() <= st.brk && b.size >= 16 && b.size % 16 == 0 && b.addr % 16 == 0
  {
    var i :| 0 <= i < |st.blocks| && st.blocks[i] == b;
    AtIndex(st.blocks, i, st.base, st.brk);
    Neighbours(st.blocks, i, st.base, st.brk);
  }

  ghost predicate IsFirstSmallest(bs: seq<Block>, order: seq<int>, need: int, k: int) {
    && 0 <= k < |order|
    && SizeAt(bs, order[k]) >= need
    && (forall c :: c in order && SizeAt(bs, c) >= need ==> SizeAt(bs, order[k]) <= SizeAt(bs, c))
    && (forall j :: 0 <= j < k && SizeAt(bs, order[j]) >= need ==> SizeAt(bs, order[k]) < SizeAt(bs, order[j]))
  }

  /** The free block that malloc takes is the first of the smallest sufficient ones. */
  lemma {:induction false} BestIsSmallest(bs: seq<Block>, order: seq<int>, need: int) returns (k: int)
    requires need > 0 && 0 !in order
    ensures var best := Best(bs, order, need);
            && (best == 0 <==> forall c :: c in order ==> SizeAt(bs, c) < need)
            && (best != 0 ==> IsFirstSmallest(bs, order, need, k) && order[k] == best)
  {
    hide SizeAt;
    k := -1;
    if order != [] {
      var n := |order| - 1;
      var init := order[..n];
      assert order == init + [order[n]];
      k := BestIsSmallest(bs, init, need);
      var was := Best(bs, init, need);
      if SizeAt(bs, order[n]) >= need && (was == 0 || SizeAt(bs, order[n]) < SizeAt(bs, was)) {
        k := n;
      }
    }
  }

  lemma NoBest(bs: seq<Block>, need: int)
    ensures Best(bs, [], need) == 0
  {
  }

  /** One turn of the search. */
  lemma BestStep(bs: seq<Block>, order: seq<int>, k: nat, need: int)
    requires k < |order|
    ensures var best := Best(bs, order[..k], need);
            Best(bs, order[..k + 1], need) ==
            if SizeAt(bs, order[k]) >= need && (best == 0 || SizeAt(bs, order[k]) < SizeAt(bs, best)) then order[k] else best
  {
    assert order[..k + 1][..k] == order[..k];
  }

  lemma FirstSmallestIn(bs: seq<Block>, order: seq<int>, need: int, k: int)
    requires IsFirstSmallest(bs, order, need, k)
    ensures order[k] in order && SizeAt(bs, order[k]) >= need
  {
  }

  lemma {:induction false} EndsAtBreak(bs: seq<Block>, lo: int, hi: int)
    requires Chain(bs, lo, hi) && bs != []
    ensures bs[|bs| - 1].End() == hi
  {
    if |bs| > 1 {
      EndsAtBreak(bs[1..], bs[0].End(), hi);
    }
  }

  lemma OrderIs(st: State, a: int)
    requires Tiled(st) && a in st.order
    ensures Has(st.blocks, a, true) && a > 0 && SizeAt(st.blocks, a) >= 16
  {
    assert a in Elems(st.order);
    var c :| c in st.blocks && c.free && c.addr == a;
    var j :| 0 <= j < |st.blocks| && st.blocks[j] == c;
    AtIndex(st.blocks, j, st.base, st.brk);
    Neighbours(st.blocks, j, st.base, st.brk);
  }

  lemma RoundedIs(size: int)
    requires 0 < size
    ensures Rounded(size) % 16 == 0 && size <= Rounded(size) < size + 16 && 16 <= Rounded(size)
  {
  }

  /** The rounding is done in 32 bits: block size and rounded size are right exactly up to MAX_REQUEST. */
  lemma RoundingFits(size: int)
    requires 0 <= size < 0x1_0000_0000
    ensures size <= MAX_REQUEST <==>
            ((size + 15) % 0x1_0000_0000 / 16 * 16 + OVERHEAD) % 0x1_0000_0000 == Rounded(size) + OVERHEAD
  {
  }

  /** malloc takes a free block exactly when some free block is large enough. */
  lemma TakesWhenFits(st: State, need: int)
    requires Inv(st) && need >= 16
    ensures Has(st.blocks, Best(st.blocks, st.order, need), true) <==> exists b :: b in st.blocks && b.free && b.size >= need
    ensures Has(st.blocks, Best(st.blocks, st.order, need), true) ==> SizeAt(st.blocks, Best(st.blocks, st.order, need)) >= need
    ensures Best(st.blocks, st.order, need) != 0 ==> Best(st.blocks, st.order, need) in st.order
    ensures Has(st.blocks, Best(st.blocks, st.order, need), true) <==> Best(st.blocks, st.order, need) != 0
  {
    var bs, best := st.blocks, Best(st.blocks, st.order, need);
    if 0 in st.order { OrderIs(st, 0); }
    var k := BestIsSmallest(bs, st.order, need);
    if best != 0 {
      FirstSmallestIn(bs, st.order, need, k);
      OrderIs(st, best);
      assert bs[IndexOf(bs, best)] in bs;
    } else {
      if Has(bs, 0, true) { Neighbours(bs, IndexOf(bs, 0), st.base, st.brk); }
      forall b | b in bs && b.free ensures b.size < need {
        assert b.addr in FreeAddrs(bs);
        assert b.addr in Elems(st.order);
        var j :| 0 <= j < |bs| && bs[j] == b;
        AtIndex(bs, j, st.base, st.brk);
      }
    }
  }

  /** The block behind the pointer that malloc returns. */
  function NewBlock(st: State, size: int): Block {
    var need := Rounded(size);
    var best := Best(st.blocks, st.order, need);
    if Has(st.blocks, best, true) then Block(best, Granted(SizeAt(st.blocks, best), need), false)
    else Block(st.brk, need, false)
  }

  /** Block b is new: large enough, and apart from every used block there was. */
  ghost predicate Adds(st: State, st': State, b: Block, size: int) {
    && size <= b.size && b.size % 16 == 0 && !b.free
    && Used(st'.blocks) == Used(st.blocks) + {b}
    && forall c :: c in Used(st.blocks) ==> b.End() <= c.addr || c.End() <= b.addr
  }

  /** malloc keeps the invariant; it adds one used block, large enough, and touches no other used block.
      It fails, changing nothing, only when no free block is large enough and the heap cannot grow. */
  lemma MallocKeeps(st: State, size: int)
    requires Inv(st) && 0 <= size <= MAX_REQUEST
    ensures var (st', r) := Malloc(st, size);
            && Inv(st')
            && (r.Null? <==> size == 0)
            && (!r.Pointer? ==> st' == st)
            && (r.Panic? ==> forall c :: c in st.blocks && c.free ==> c.size < size)
            && (r.Pointer? ==> r.ptr == NewBlock(st, size).addr + HEADER && Adds(st, st', NewBlock(st, size), size))
  {
    hide Inv, Adds, Best, Rounded, CanGrow;
    if size > 0 {
      var need := Rounded(size);
      RoundedIs(size);
      if Has(st.blocks, Best(st.blocks, st.order, need), true) {
        MallocTakes(st, size);
      } else if CanGrow(st, need) {
        MallocGrows(st, size);
      } else {
        NothingFits(st, need);
      }
    }
  }

  lemma NothingFits(st: State, need: int)
    requires Inv(st) && need >= 16 && need % 16 == 0 && !Has(st.blocks, Best(st.blocks, st.order, need), true)
    ensures forall c :: c in st.blocks && c.free ==> c.size < need - 15
  {
    TakesWhenFits(st, need);
    forall c | c in st.blocks && c.free ensures c.size < need - 15 {
      var j :| 0 <= j < |st.blocks| && st.blocks[j] == c;
      Neighbours(st.blocks, j, st.base, st.brk);
    }
  }

  lemma MallocGrows(st: State, size: int)
    requires Inv(st) && 0 < size <= MAX_REQUEST && CanGrow(st, Rounded(size))
    requires !Has(st.blocks, Best(st.blocks, st.order, Rounded(size)), true)
    ensures Inv(Malloc(st, size).0) && Adds(st, Malloc(st, size).0, NewBlock(st, size), size)
  {
    hide Chain, Coalesced, Distinct, FreeAddrs, Used, Best;
    RoundedIs(size);
    GrowKeeps(st, Rounded(size));
    if Has(st.blocks, st.brk, false) { Neighbours(st.blocks, IndexOf(st.blocks, st.brk), st.base, st.brk); }
    NewIsApart(st, Grow(st, Rounded(size)), NewBlock(st, size));
  }

  lemma MallocTakes(st: State, size: int)
    requires Inv(st) && 0 < size <= MAX_REQUEST
    requires Has(st.blocks, Best(st.blocks, st.order, Rounded(size)), true)
    ensures Inv(Malloc(st, size).0) && Adds(st, Malloc(st, size).0, NewBlock(st, size), size)
  {
    var best := Best(st.blocks, st.order, Rounded(size));
    RoundedIs(size);
    TakesWhenFits(st, Rounded(size));
    TakeKeeps(st, best, Rounded(size));
    Neighbours(st.blocks, IndexOf(st.blocks, best), st.base, st.brk);
    NewIsApart(st, Take(st, best, Rounded(size)), NewBlock(st, size));
  }

  lemma NewIsApart(st: State, st': State, b: Block)
    requires Inv(st) && Inv(st') && Used(st'.blocks) == Used(st.blocks) + {b} && !Has(st.blocks, b.addr, false)
    ensures forall c :: c in Used(st.blocks) ==> b.End() <= c.addr || c.End() <= b.addr
  {
    ChainDisjoint(st'.blocks, st'.base, st'.brk);
    forall c | c in Used(st.blocks)
      ensures b.End() <= c.addr || c.End() <= b.addr
    {
      UsedIs(st, c);
      assert c in Used(st'.blocks) && b in Used(st'.blocks);
      assert c != b;
    }
  }

  /** realloc of the last block to a size that leaves a remainder worth splitting off. */
  predicate TailShrink(st: State, ptr: int, size: int) {
    ptr != 0 && size != 0 && ptr - HEADER == st.tail && SizeAt(st.blocks, st.tail) - Rounded(size) >= SPLIT_MIN
  }

  /** The block behind the pointer that realloc returns. */
  function MovedBlock(st: State, ptr: int, size: int): Block
    requires Has(st.blocks, ptr - HEADER, false)
  {
    var i := IndexOf(st.blocks, ptr - HEADER);
    var b := st.blocks[i];
    match PathOf(st, i, size)
    case Keep => b
    case IntoNext => if i + 1 < |st.blocks| then b.(size := b.size + OVERHEAD + st.blocks[i + 1].size) else b
    case IntoPrev => if i > 0 then Block(st.blocks[i - 1].addr, b.size + OVERHEAD + st.blocks[i - 1].size, false) else b
    case GiveBack => b.(size := Rounded(size))
    case Move => NewBlock(st, size)
  }

  /** In st', block c has taken the place of the used block b; all other used blocks are as in st. */
  ghost predicate Replaces(st: State, st': State, b: Block, c: Block, size: int) {
    && size <= c.size && !c.free
    && Used(st'.blocks) == Used(st.blocks) - {b} + {c}
  }

  /** realloc of a live block to a nonzero size puts one block, large enough, in its place. The tiling is
      always right, and `tail` is right exactly when the call was no tail shrink. */
  ghost predicate ReallocGood(st: State, ptr: int, size: int)
    requires Has(st.blocks, ptr - HEADER, false)
  {
    var (st', r) := Realloc(st, ptr, size);
    var c := MovedBlock(st, ptr, size);
    && Tiled(st')
    && (Inv(st') <==> !TailShrink(st, ptr, size))
    && !r.Null?
    && (r.Panic? ==> st' == st)
    && (r.Pointer? ==> r.ptr == c.addr + HEADER && Replaces(st, st', st.blocks[IndexOf(st.blocks, ptr - HEADER)], c, size))
  }

  lemma ReallocKeeps(st: State, ptr: int, size: int)
    requires Inv(st) && 0 < size <= MAX_REQUEST && Has(st.blocks, ptr - HEADER, false) && ptr != 0
    ensures ReallocGood(st, ptr, size)
  {
    match PathOf(st, IndexOf(st.blocks, ptr - HEADER), size)
    case Keep => KeepGood(st, ptr, size);
    case IntoNext => IntoNextGood(st, ptr, size);
    case IntoPrev => IntoPrevGood(st, ptr, size);
    case GiveBack => GiveBackGood(st, ptr, size);
    case Move => MoveGood(st, ptr, size);
  }

  lemma KeepGood(st: State, ptr: int, size: int)
    requires Inv(st) && 0 < size <= MAX_REQUEST && Has(st.blocks, ptr - HEADER, false) && ptr != 0
    requires PathOf(st, IndexOf(st.blocks, ptr - HEADER), size).Keep?
    ensures ReallocGood(st, ptr, size)
  {
    assert st.blocks[IndexOf(st.blocks, ptr - HEADER)] in Used(st.blocks);
  }

  lemma IntoNextGood(st: State, ptr: int, size: int)
    requires Inv(st) && 0 < size <= MAX_REQUEST && Has(st.blocks, ptr - HEADER, false) && ptr != 0
    requires PathOf(st, IndexOf(st.blocks, ptr - HEADER), size).IntoNext?
    ensures ReallocGood(st, ptr, size)
  {
    RoundedIs(size);
    AbsorbNextKeeps(st, ptr - HEADER);
  }

  lemma IntoPrevGood(st: State, ptr: int, size: int)
    requires Inv(st) && 0 < size <= MAX_REQUEST && Has(st.blocks, ptr - HEADER, false) && ptr != 0
    requires PathOf(st, IndexOf(st.blocks, ptr - HEADER), size).IntoPrev?
    ensures ReallocGood(st, ptr, size)
  {
    RoundedIs(size);
    AbsorbPrevKeeps(st, ptr - HEADER);
  }

  lemma GiveBackGood(st: State, ptr: int, size: int)
    requires Inv(st) && 0 < size <= MAX_REQUEST && Has(st.blocks, ptr - HEADER, false) && ptr != 0
    requires PathOf(st, IndexOf(st.blocks, ptr - HEADER), size).GiveBack?
    ensures ReallocGood(st, ptr, size)
  {
    RoundedIs(size);
    ShrinkKeeps(st, ptr - HEADER, Rounded(size));
  }

  /** The moving path frees a block that malloc has left alone. */
  lemma MoveIs(st: State, ptr: int, size: int)
    requires Inv(st) && 0 < size <= MAX_REQUEST && Has(st.blocks, ptr - HEADER, false) && ptr != 0
    requires Malloc(st, size).1.Pointer?
    ensures var st1 := Malloc(st, size).0; var b := st.blocks[IndexOf(st.blocks, ptr - HEADER)];
            && Has(st1.blocks, ptr - HEADER, false) && SizeAt(st1.blocks, ptr - HEADER) == b.size
            && b in Used(st.blocks) && b != NewBlock(st, size)
  {
    var b := st.blocks[IndexOf(st.blocks, ptr - HEADER)];
    MallocKeeps(st, size);
    assert b in Used(st.blocks);
    assert b in Used(Malloc(st, size).0.blocks);
    UsedIs(Malloc(st, size).0, b);
    UsedIs(st, b);
  }

  lemma MoveGood(st: State, ptr: int, size: int)
    requires Inv(st) && 0 < size <= MAX_REQUEST && Has(st.blocks, ptr - HEADER, false) && ptr != 0
    requires PathOf(st, IndexOf(st.blocks, ptr - HEADER), size).Move?
    ensures ReallocGood(st, ptr, size)
  {
    hide Chain, Coalesced, Distinct, FreeAddrs, Malloc, Release;
    MallocKeeps(st, size);
    RoundedIs(size);
    if Malloc(st, size).1.Pointer? {
      MoveIs(st, ptr, size);
      ReleaseKeeps(Malloc(st, size).0, ptr - HEADER);
    }
  }
}
