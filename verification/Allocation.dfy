/** Block and inode allocation of the EXT2 driver: a bitmap and a free count for every group
    (src/fs/ext2.c:427-431, 579-611, 649-682). */
module Allocation {
  import opened Arithmetic
  import opened Bytes
  import opened Options
  import opened BlockTree
  import opened Ext2

  // ---- Bits of a word -----------------------------------------------------------------------------

  function Pow2(n: nat): (r: nat)
    ensures r > 0
  {
    if n == 0 then 1 else 2 * Pow2(n - 1)
  }

  /** (w >> k) & 1 */
  predicate Bit(w: nat, k: nat) { if k == 0 then w % 2 == 1 else Bit(w / 2, k - 1) }

  /** w | (1 << k) */
  function WithBit(w: nat, k: nat): nat { if k == 0 then w / 2 * 2 + 1 else w % 2 + 2 * WithBit(w / 2, k - 1) }

  lemma {:induction false} WithBitIs(w: nat, k: nat, m: nat)
    ensures Bit(WithBit(w, k), m) == (m == k || Bit(w, m))
  {
    if k > 0 && m > 0 {
      WithBitIs(w / 2, k - 1, m - 1);
    }
  }

  lemma {:induction false} WithBitFits(w: nat, k: nat, n: nat)
    requires w < Pow2(n) && k < n
    ensures WithBit(w, k) < Pow2(n)
  {
    Halves(w, Pow2(n - 1));
    if k > 0 {
      WithBitFits(w / 2, k - 1, n - 1);
    }
  }

  lemma Halves(w: nat, half: nat)
    requires w < 2 * half
    ensures 0 <= w / 2 < half && w / 2 * 2 + 1 < 2 * half && 0 <= w % 2 <= 1
  {
  }

  /** Bit k counts 2^k. */
  lemma {:induction false} BitCounts(w: nat, k: nat)
    ensures Bit(w, k) <==> w / Pow2(k) % 2 == 1
    ensures !Bit(w, k) ==> WithBit(w, k) == w + Pow2(k)
  {
    if k > 0 {
      BitCounts(w / 2, k - 1);
      HalfFirst(w, Pow2(k - 1));
    }
  }

  lemma HalfFirst(w: nat, d: nat)
    requires d > 0
    ensures w / (2 * d) == w / 2 / d
  {
    var q := w / 2 / d;
    DivMod(w / 2, d);
    assert q * (2 * d) == 2 * (q * d);
    DivUnique(w, 2 * d, q, w - q * (2 * d));
  }

  predicate AllSet(w: nat, n: nat) { forall k: nat :: k < n ==> Bit(w, k) }

  lemma AllSetStep(w: nat, n: nat)
    requires n > 0
    ensures AllSet(w, n) <==> w % 2 == 1 && AllSet(w / 2, n - 1)
  {
    if AllSet(w, n) {
      assert Bit(w, 0);
      forall k: nat | k < n - 1
        ensures Bit(w / 2, k)
      {
        assert Bit(w, k + 1);
      }
    }
    if w % 2 == 1 && AllSet(w / 2, n - 1) {
      forall k: nat | k < n
        ensures Bit(w, k)
      {
        if k > 0 { assert Bit(w / 2, k - 1); }
      }
    }
  }

  /** A word of n bits is all ones exactly when every bit is set. */
  lemma {:induction false} AllOnes(w: nat, n: nat)
    requires w < Pow2(n)
    ensures w == Pow2(n) - 1 <==> AllSet(w, n)
  {
    hide AllSet;
    if n == 0 {
      assert AllSet(w, 0) by { NoBits(w); }
    } else {
      AllOnes(w / 2, n - 1);
      AllSetStep(w, n);
    }
  }

  lemma NoBits(w: nat)
    ensures AllSet(w, 0)
  {
  }

  lemma {:induction false} PowSum(a: nat, b: nat)
    ensures Pow2(a + b) == Pow2(a) * Pow2(b)
  {
    if a > 0 {
      PowSum(a - 1, b);
    }
  }

  lemma Pow32()
    ensures Pow2(32) == WORD_LIMIT
  {
    PowSum(2, 2);
    PowSum(4, 4);
    PowSum(8, 8);
    PowSum(16, 16);
  }

  // ---- Bitmaps ------------------------------------------------------------------------------------

  function Zeros(s: seq<bool>): nat { if s == [] then 0 else Zeros(s[..|s| - 1]) + if s[|s| - 1] then 0 else 1 }

  lemma {:induction false} ZerosSet(s: seq<bool>, n: nat)
    requires n < |s| && !s[n]
    ensures Zeros(s[n := true]) == Zeros(s) - 1
  {
    var t := s[n := true];
    if n == |s| - 1 {
      assert t[..|s| - 1] == s[..|s| - 1];
    } else {
      ZerosSet(s[..|s| - 1], n);
      assert t[..|s| - 1] == s[..|s| - 1][n := true];
    }
  }

  lemma {:induction false} NoZeros(s: seq<bool>)
    ensures Zeros(s) == 0 <==> forall n :: 0 <= n < |s| ==> s[n]
  {
    if s != [] {
      var t := s[..|s| - 1];
      NoZeros(t);
      if Zeros(s) == 0 {
        forall n | 0 <= n < |s|
          ensures s[n]
        {
          if n < |t| { assert t[n]; }
        }
      }
    }
  }

  /** The bits of a bitmap block, in the order of the numbers they stand for. */
  function Bitmap(disk: seq<byte>, p: nat, b: nat): (r: seq<bool>)
    ensures |r| == 32 * p
  {
    seq(32 * p, n requires 0 <= n < 32 * p => Bit(Entry(disk, p, b, n / 32), n % 32))
  }

  lemma BitmapAfterSet(disk: seq<byte>, p: nat, b: nat, j: nat, k: nat, c: nat)
    requires j < p && k < 32 && InDisk(disk, 4 * p, b)
    ensures WithBit(Entry(disk, p, b, j), k) < WORD_LIMIT
    ensures Bitmap(SetWord(disk, p, b, j, WithBit(Entry(disk, p, b, j), k)), p, c) ==
      if c == b then Bitmap(disk, p, b)[32 * j + k := true] else Bitmap(disk, p, c)
  {
    hide SetWord, Entry, Bit, WithBit;
    Pow32();
    var w := Entry(disk, p, b, j);
    EntryFits(disk, p, b, j);
    WithBitFits(w, k, 32);
    var d := SetWord(disk, p, b, j, WithBit(w, k));
    var now := Bitmap(d, p, c);
    forall n | 0 <= n < 32 * p
      ensures now[n] == if c == b && n == 32 * j + k then true else Bitmap(disk, p, c)[n]
    {
      EntryAfterSet(disk, p, b, j, WithBit(w, k), c, n / 32);
      WithBitIs(w, k, n % 32);
    }
  }

  lemma EntryFits(disk: seq<byte>, p: nat, b: nat, k: nat)
    requires k < p
    ensures Entry(disk, p, b, k) < WORD_LIMIT
  {
  }

  lemma BitmapOfOther(disk: seq<byte>, p: nat, n: nat, block: seq<byte>, b: nat)
    requires InDisk(disk, 4 * p, n) && |block| == 4 * p && b != n
    ensures Bitmap(SetBlock(disk, 4 * p, n, block), p, b) == Bitmap(disk, p, b)
  {
    hide SetBlock, Bit, WordAt;
    if InDisk(disk, 4 * p, b) {
      BlockAfterSet(disk, 4 * p, n, block, b);
    }
  }

  // ---- Group descriptors --------------------------------------------------------------------------

  datatype Kind = Blocks | Inodes

  const DESCRIPTOR := 32                        // bytes of a block_group_descriptor
  const TABLE_BLOCK := 2                        // where rewrite_bgd writes
  const NONE := 0xFFFF_FFFF                     // (uint32_t)-1

  /** Everything an allocation looks at: the disk and the descriptors in memory. */
  datatype Image = Image(disk: seq<byte>, bgd: seq<byte>)

  function CountAt(kind: Kind, g: nat): nat { DESCRIPTOR * g + if kind == Blocks then 12 else 14 }

  function BitmapAt(kind: Kind, g: nat): nat { 8 * g + if kind == Blocks then 0 else 1 }

  /** free_blocks_count or free_inodes_count of group g. */
  function Count(bgd: seq<byte>, kind: Kind, g: nat): nat
    requires DESCRIPTOR * g + DESCRIPTOR <= |bgd|
  {
    (bgd[CountAt(kind, g)] as int) + 0x100 * (bgd[CountAt(kind, g) + 1] as int)
  }

  /** block_bitmap or inode_bitmap of group g. */
  function BitmapBlock(bgd: seq<byte>, kind: Kind, g: nat): nat
    requires DESCRIPTOR * g + DESCRIPTOR <= |bgd|
  {
    WordAt(bgd, BitmapAt(kind, g))
  }

  /** block_group_descriptor (src/Include/ext2.h:102-112). */
  datatype Descriptor = Descriptor(blockBitmap: nat, inodeBitmap: nat, inodeTable: nat, freeBlocks: nat, freeInodes: nat,
                                   usedDirs: nat, rest: seq<byte>)

  function Fields(bgd: seq<byte>, g: nat): Descriptor
    requires 32 * g + 32 <= |bgd|
  {
    Descriptor(LittleEndian(bgd, 32 * g, 4), LittleEndian(bgd, 32 * g + 4, 4), LittleEndian(bgd, 32 * g + 8, 4),
               LittleEndian(bgd, 32 * g + 12, 2), LittleEndian(bgd, 32 * g + 14, 2), LittleEndian(bgd, 32 * g + 16, 2),
               bgd[32 * g + 18..32 * g + 32])
  }

  /** Bit n of a bitmap, which is bit n % 8 of byte n / 8, was clear and has been set; nothing else has changed. */
  ghost predicate BitTaken(was: seq<byte>, now: seq<byte>, n: nat) {
    && |was| == |now| && n < 8 * |was|
    && was[n / 8] / Pow2(n % 8) % 2 == 0 && now[n / 8] == was[n / 8] + Pow2(n % 8)
    && forall i :: 0 <= i < |was| && i != n / 8 ==> now[i] == was[i]
  }

  /** One bit of block b has been set, and no block but b and block 2 has changed. */
  ghost predicate BitOfBlock(s: seq<byte>, r: seq<byte>, p: nat, b: nat, n: nat) {
    && |s| == |r| && InDisk(s, 4 * p, b) && BitTaken(BlockOf(s, 4 * p, b), BlockOf(r, 4 * p, b), n)
    && forall m: nat :: InDisk(s, 4 * p, m) && m != b && m != 2 ==> BlockOf(r, 4 * p, m) == BlockOf(s, 4 * p, m)
  }

  /** One block, or one inode, of group g has been allocated: a bit of the bitmap that the descriptor names, and one off its
      count. No other field of any group changes. */
  ghost predicate Allocated(s: Image, r: Image, p: nat, total: nat, kind: Kind, g: nat, n: nat)
    requires 32 * total <= |s.bgd| == |r.bgd| && g < total
  {
    var was, now := Fields(s.bgd, g), Fields(r.bgd, g);
    && (kind == Blocks ==> was.freeBlocks > 0 && now == was.(freeBlocks := was.freeBlocks - 1)
                           && BitOfBlock(s.disk, r.disk, p, was.blockBitmap, n))
    && (kind == Inodes ==> was.freeInodes > 0 && now == was.(freeInodes := was.freeInodes - 1)
                           && BitOfBlock(s.disk, r.disk, p, was.inodeBitmap, n))
    && forall h: nat :: h < total && h != g ==> Fields(r.bgd, h) == Fields(s.bgd, h)
  }

  function Marks(s: Image, p: nat, kind: Kind, g: nat): (r: seq<bool>)
    requires DESCRIPTOR * g + DESCRIPTOR <= |s.bgd|
    ensures |r| == 32 * p
  {
    Bitmap(s.disk, p, BitmapBlock(s.bgd, kind, g))
  }

  /** Every bitmap has a block of its own, away from the block that rewrite_bgd writes. */
  predicate Placed(s: Image, p: nat, total: nat)
    requires DESCRIPTOR * total <= |s.bgd|
  {
    && InDisk(s.disk, 4 * p, TABLE_BLOCK)
    && (forall kind, g: nat :: g < total ==>
          InDisk(s.disk, 4 * p, BitmapBlock(s.bgd, kind, g)) && BitmapBlock(s.bgd, kind, g) != TABLE_BLOCK)
    && (forall k1, g1: nat, k2, g2: nat :: g1 < total && g2 < total && (k1 != k2 || g1 != g2) ==>
          BitmapBlock(s.bgd, k1, g1) != BitmapBlock(s.bgd, k2, g2))
  }

  /** Every free count is the number of clear bits in its bitmap. */
  predicate Counted(s: Image, p: nat, total: nat)
    requires DESCRIPTOR * total <= |s.bgd|
  {
    forall kind, g: nat :: g < total ==> Count(s.bgd, kind, g) == Zeros(Marks(s, p, kind, g))
  }

  function Less(bgd: seq<byte>, kind: Kind, g: nat): (r: seq<byte>)
    requires DESCRIPTOR * g + DESCRIPTOR <= |bgd| && Count(bgd, kind, g) > 0
    ensures |r| == |bgd|
  {
    var c := Count(bgd, kind, g) - 1;
    Patch(bgd, CountAt(kind, g), [c % 0x100, c / 0x100])
  }

  lemma LessOne(bgd: seq<byte>, kind: Kind, g: nat, k: Kind, h: nat)
    requires DESCRIPTOR * g + DESCRIPTOR <= |bgd| && Count(bgd, kind, g) > 0 && DESCRIPTOR * h + DESCRIPTOR <= |bgd|
    ensures Count(Less(bgd, kind, g), k, h) == Count(bgd, k, h) - if k == kind && h == g then 1 else 0
    ensures BitmapBlock(Less(bgd, kind, g), k, h) == BitmapBlock(bgd, k, h)
  {
  }

  /** rewrite_bgd writes every block of the table to block 2: the last one stays. */
  function Rewritten(disk: seq<byte>, p: nat, bgd: seq<byte>, n: nat): (r: seq<byte>)
    requires n * (4 * p) <= |bgd| && InDisk(disk, 4 * p, TABLE_BLOCK)
    ensures |r| == |disk|
  {
    if n == 0 then disk
    else
      ChunkBounds(n, 4 * p);
      SetBlock(disk, 4 * p, TABLE_BLOCK, bgd[(n - 1) * (4 * p)..n * (4 * p)])
  }

  lemma ChunkBounds(n: nat, bs: nat)
    requires n > 0
    ensures 0 <= (n - 1) * bs && (n - 1) * bs + bs == n * bs
  {
    assert (n - 1) * bs + bs == n * bs;
  }

  lemma RewriteOver(disk: seq<byte>, p: nat, bgd: seq<byte>, i: nat)
    requires (i + 1) * (4 * p) <= |bgd| && i * (4 * p) <= |bgd| && InDisk(disk, 4 * p, TABLE_BLOCK)
    ensures i * (4 * p) + 4 * p == (i + 1) * (4 * p)
    ensures Rewritten(disk, p, bgd, i + 1) ==
      SetBlock(Rewritten(disk, p, bgd, i), 4 * p, TABLE_BLOCK, bgd[i * (4 * p)..i * (4 * p) + 4 * p])
  {
    hide Patch;
    ChunkBounds(i + 1, 4 * p);
    if i > 0 {
      ChunkBounds(i, 4 * p);
      PatchOver(disk, TABLE_BLOCK * (4 * p), bgd[(i - 1) * (4 * p)..i * (4 * p)], bgd[i * (4 * p)..i * (4 * p) + 4 * p]);
    }
  }

  /** Both after bit n in the bitmap of group g has been taken. */
  function Taken(s: Image, p: nat, tables: nat, kind: Kind, g: nat, n: nat): (r: Image)
    requires DESCRIPTOR * g + DESCRIPTOR <= |s.bgd| && tables * (4 * p) <= |s.bgd| && n < 32 * p
    requires InDisk(s.disk, 4 * p, BitmapBlock(s.bgd, kind, g)) && InDisk(s.disk, 4 * p, TABLE_BLOCK) && Count(s.bgd, kind, g) > 0
    ensures |r.disk| == |s.disk| && |r.bgd| == |s.bgd|
  {
    var b, j, k := BitmapBlock(s.bgd, kind, g), n / 32, n % 32;
    BitmapAfterSet(s.disk, p, b, j, k, b);
    var bgd := Less(s.bgd, kind, g);
    Image(Rewritten(SetWord(s.disk, p, b, j, WithBit(Entry(s.disk, p, b, j), k)), p, bgd, tables), bgd)
  }

  /** The bit and the count change, and no other bit and no other count, in either kind of bitmap. */
  lemma TakenMarks(s: Image, p: nat, total: nat, tables: nat, kind: Kind, g: nat, n: nat, kd: Kind, h: nat)
    requires DESCRIPTOR * total <= |s.bgd| && tables * (4 * p) <= |s.bgd| && n < 32 * p && Placed(s, p, total)
    requires g < total && h < total && Count(s.bgd, kind, g) > 0
    ensures var r := Taken(s, p, tables, kind, g, n);
      && Marks(r, p, kd, h) == (if kd == kind && h == g then Marks(s, p, kd, h)[n := true] else Marks(s, p, kd, h))
      && Count(r.bgd, kd, h) == Count(s.bgd, kd, h) - (if kd == kind && h == g then 1 else 0)
      && BitmapBlock(r.bgd, kd, h) == BitmapBlock(s.bgd, kd, h)
  {
    hide SetWord, Entry, Bitmap, BitmapBlock, Count, Less, WithBit, SetBlock;
    var b, j, k := BitmapBlock(s.bgd, kind, g), n / 32, n % 32;
    var c := BitmapBlock(s.bgd, kd, h);
    LessOne(s.bgd, kind, g, kd, h);
    BitmapAfterSet(s.disk, p, b, j, k, c);
    var bgd := Less(s.bgd, kind, g);
    if tables > 0 {
      ChunkBounds(tables, 4 * p);
      BitmapOfOther(SetWord(s.disk, p, b, j, WithBit(Entry(s.disk, p, b, j), k)), p, TABLE_BLOCK,
                    bgd[(tables - 1) * (4 * p)..tables * (4 * p)], c);
    }
  }

  // ---- What that means for the bytes ---------------------------------------------------------------

  lemma FieldNames(bgd: seq<byte>, kind: Kind, g: nat)
    requires DESCRIPTOR * g + DESCRIPTOR <= |bgd|
    ensures BitmapBlock(bgd, kind, g) == if kind == Blocks then Fields(bgd, g).blockBitmap else Fields(bgd, g).inodeBitmap
    ensures Count(bgd, kind, g) == if kind == Blocks then Fields(bgd, g).freeBlocks else Fields(bgd, g).freeInodes
  {
    WordIs(bgd, BitmapAt(kind, g));
    CountIs(bgd, kind, g);
  }

  lemma FieldsLess(bgd: seq<byte>, kind: Kind, g: nat, h: nat)
    requires DESCRIPTOR * g + DESCRIPTOR <= |bgd| && Count(bgd, kind, g) > 0 && DESCRIPTOR * h + DESCRIPTOR <= |bgd|
    ensures Fields(Less(bgd, kind, g), h) ==
      if h != g then Fields(bgd, h)
      else if kind == Blocks then Fields(bgd, g).(freeBlocks := Fields(bgd, g).freeBlocks - 1)
      else Fields(bgd, g).(freeInodes := Fields(bgd, g).freeInodes - 1)
  {
    var now, at := Less(bgd, kind, g), CountAt(kind, g);
    FieldsBeside(bgd, now, at, h);
    if h == g {
      hide Less, Count;
      LessOne(bgd, kind, g, kind, g);
      CountIs(bgd, kind, g);
      CountIs(now, kind, g);
    }
  }

  /** Two bytes have changed: all fields elsewhere are as they were. */
  lemma FieldsBeside(was: seq<byte>, now: seq<byte>, at: nat, h: nat)
    requires |was| == |now| && at + 2 <= |was| && 32 * h + 32 <= |was|
    requires forall i :: 0 <= i < |was| && !(at <= i < at + 2) ==> now[i] == was[i]
    requires at == 32 * h + 12 || at == 32 * h + 14 || at + 2 <= 32 * h || 32 * h + 32 <= at
    ensures var d, e := Fields(was, h), Fields(now, h);
      e == Descriptor(d.blockBitmap, d.inodeBitmap, d.inodeTable, if at == 32 * h + 12 then e.freeBlocks else d.freeBlocks,
                      if at == 32 * h + 14 then e.freeInodes else d.freeInodes, d.usedDirs, d.rest)
  {
    hide LittleEndian;
    SameRest(was, now, 32 * h, 4);
    SameRest(was, now, 32 * h + 4, 4);
    SameRest(was, now, 32 * h + 8, 4);
    if at != 32 * h + 12 { SameRest(was, now, 32 * h + 12, 2); }
    if at != 32 * h + 14 { SameRest(was, now, 32 * h + 14, 2); }
    SameRest(was, now, 32 * h + 16, 2);
    assert now[32 * h + 18..32 * h + 32] == was[32 * h + 18..32 * h + 32];
  }

  lemma CountIs(bgd: seq<byte>, kind: Kind, g: nat)
    requires DESCRIPTOR * g + DESCRIPTOR <= |bgd|
    ensures Count(bgd, kind, g) == LittleEndian(bgd, CountAt(kind, g), 2)
  {
    TwoBytes(bgd, CountAt(kind, g));
  }

  lemma {:induction false} SameRest(was: seq<byte>, now: seq<byte>, lo: nat, n: nat)
    requires |was| == |now| && lo + n <= |was| && forall i :: lo <= i < lo + n ==> now[i] == was[i]
    ensures LittleEndian(now, lo, n) == LittleEndian(was, lo, n)
    decreases n
  {
    if n > 0 {
      SameRest(was, now, lo + 1, n - 1);
    }
  }

  /** Setting bit k of a number sets bit k % 8 of its byte k / 8. */
  lemma LowByte(lo: byte, hi: nat, k: nat)
    ensures var w := (lo as int) + 256 * hi; k < 8 ==> Bit(w, k) == Bit(lo, k) && WithBit(w, k) == WithBit(lo, k) + 256 * hi
    ensures var w := (lo as int) + 256 * hi; k >= 8 ==> Bit(w, k) == Bit(hi, k - 8) && WithBit(w, k) == lo + 256 * WithBit(hi, k - 8)
  {
    hide Bit, WithBit;
    PowByte();
    LowBits(lo, 256 * hi, hi, if k >= 8 then 256 * WithBit(hi, k - 8) else 0, k, 8);
  }

  lemma PowByte()
    ensures Pow2(8) == 256
  {
    PowSum(4, 4);
    PowSum(2, 2);
  }

  lemma {:induction false} LowBits(lo: nat, rest: nat, hi: nat, marked: nat, k: nat, m: nat)
    requires lo < Pow2(m) && rest == Pow2(m) * hi && (k >= m ==> marked == Pow2(m) * WithBit(hi, k - m))
    ensures k < m ==> Bit(lo + rest, k) == Bit(lo, k) && WithBit(lo + rest, k) == WithBit(lo, k) + rest
    ensures k >= m ==> Bit(lo + rest, k) == Bit(hi, k - m) && WithBit(lo + rest, k) == lo + marked
    decreases m
  {
    if m > 0 {
      PowTimes(m, hi);
      if k >= m { PowTimes(m, WithBit(hi, k - m)); }
      Halved(lo, rest / 2);
      if k > 0 {
        LowBits(lo / 2, rest / 2, hi, marked / 2, k - 1, m - 1);
      }
    }
  }

  lemma PowTimes(m: nat, x: nat)
    requires m > 0
    ensures Pow2(m) * x == 2 * (Pow2(m - 1) * x) && Pow2(m) == 2 * Pow2(m - 1)
  {
    var h := Pow2(m - 1);
    assert 2 * h * x == 2 * (h * x);
  }

  lemma Halved(lo: nat, half: nat)
    ensures (lo + 2 * half) / 2 == lo / 2 + half && (lo + 2 * half) % 2 == lo % 2 && lo == lo / 2 * 2 + lo % 2
  {
  }

  lemma ByteFits(b: byte, k: nat)
    requires k < 8
    ensures WithBit(b, k) < 256
  {
    PowByte();
    WithBitFits(b, k, 8);
  }

  /** The four bytes of a word after bit k has been set. */
  lemma WordMarked(a: byte, b: byte, c: byte, d: byte, k: nat)
    requires k < 32 && 0 <= FromBytes(a, b, c, d)
    ensures WithBit(FromBytes(a, b, c, d), k) ==
      if k < 8 then FromBytes(WithBit(a, k), b, c, d)
      else if k < 16 then FromBytes(a, WithBit(b, k - 8), c, d)
      else if k < 24 then FromBytes(a, b, WithBit(c, k - 16), d)
      else FromBytes(a, b, c, WithBit(d, k - 24))
    ensures Bit(FromBytes(a, b, c, d), k) ==
      if k < 8 then Bit(a, k) else if k < 16 then Bit(b, k - 8) else if k < 24 then Bit(c, k - 16) else Bit(d, k - 24)
  {
    hide Bit, WithBit;
    var y: nat := (c as int) + 256 * (d as int);
    var x: nat := (b as int) + 256 * y;
    LowByte(a, x, k);
    if k >= 8 {
      LowByte(b, y, k - 8);
      if k >= 16 { LowByte(c, d, k - 16); }
    }
  }

  /** Setting a clear bit of a word of a bitmap block takes one bit of the block. */
  lemma WordTaken(block: seq<byte>, j: nat, k: nat)
    requires 4 * j + 4 <= |block| && k < 32 && !Bit(WordAt(block, j), k)
    ensures WithBit(WordAt(block, j), k) < WORD_LIMIT
    ensures BitTaken(block, Patch(block, 4 * j, Encode(WithBit(WordAt(block, j), k))), 32 * j + k)
  {
    hide Bit, WithBit, Pow2, Encode, Patch, BitTaken;
    var at, t, m := 4 * j, k / 8, k % 8;
    var a, b, c, d := block[at], block[at + 1], block[at + 2], block[at + 3];
    assert WordAt(block, j) == FromBytes(a, b, c, d);
    WordMarked(a, b, c, d, k);
    assert m == k - 8 * t;
    var was := block[at + t];
    ByteFits(was, m);
    var now: byte := WithBit(was, m);
    ByteTaken(block, j, k, now);
    PatchOne(block, at, t, now);
    if t == 0 {
      assert [a, b, c, d][0 := now] == [now, b, c, d];
      EncodeBytes(now, b, c, d);
    } else if t == 1 {
      assert [a, b, c, d][1 := now] == [a, now, c, d];
      EncodeBytes(a, now, c, d);
    } else if t == 2 {
      assert [a, b, c, d][2 := now] == [a, b, now, d];
      EncodeBytes(a, b, now, d);
    } else {
      assert [a, b, c, d][3 := now] == [a, b, c, now];
      EncodeBytes(a, b, c, now);
    }
  }

  /** What the bitmaps are read for: bit n is bit n % 8 of byte n / 8 of the block that the descriptor names. */
  lemma MarkIs(s: Image, p: nat, kind: Kind, g: nat, n: nat)
    requires 32 * g + 32 <= |s.bgd| && n < 32 * p
    requires var d := Fields(s.bgd, g); InDisk(s.disk, 4 * p, if kind == Blocks then d.blockBitmap else d.inodeBitmap)
    ensures var d := Fields(s.bgd, g); var block := BlockOf(s.disk, 4 * p, if kind == Blocks then d.blockBitmap else d.inodeBitmap);
      Marks(s, p, kind, g)[n] <==> block[n / 8] / Pow2(n % 8) % 2 == 1
  {
    hide Bit, Pow2, Fields, BlockOf, InDisk;
    FieldNames(s.bgd, kind, g);
    var block := BlockOf(s.disk, 4 * p, BitmapBlock(s.bgd, kind, g));
    var j, k := n / 32, n % 32;
    var a, b, c, d := block[4 * j], block[4 * j + 1], block[4 * j + 2], block[4 * j + 3];
    assert WordAt(block, j) == FromBytes(a, b, c, d);
    WordMarked(a, b, c, d, k);
    ByteOfBit(n);
    BitCounts(block[n / 8], n % 8);
  }

  lemma ByteOfBit(n: nat)
    ensures var j, k := n / 32, n % 32;
      n / 8 == 4 * j + k / 8 && n % 8 == k % 8 == k - 8 * (k / 8) && 0 <= k / 8 < 4 && 0 <= k < 32 && 0 <= j
  {
    var j, k := n / 32, n % 32;
    DivUnique(n, 8, 4 * j + k / 8, k % 8);
  }

  lemma ByteTaken(block: seq<byte>, j: nat, k: nat, now: byte)
    requires 4 * j + 4 <= |block| && k < 32 && 0 <= k / 8 < 4
    requires !Bit(block[4 * j + k / 8], k % 8) && now == WithBit(block[4 * j + k / 8], k % 8)
    ensures BitTaken(block, block[4 * j + k / 8 := now], 32 * j + k)
  {
    hide Bit, WithBit, Pow2;
    DivUnique(32 * j + k, 8, 4 * j + k / 8, k % 8);
    BitCounts(block[4 * j + k / 8], k % 8);
  }

  lemma PatchOne(block: seq<byte>, at: nat, t: nat, x: byte)
    requires at + 4 <= |block| && t < 4
    ensures Patch(block, at, block[at..at + 4][t := x]) == block[at + t := x]
    ensures block[at..at + 4] == [block[at], block[at + 1], block[at + 2], block[at + 3]]
  {
  }

  /** The disk and the descriptors after an allocation, field by field. */
  lemma TakenIsAllocated(s: Image, p: nat, total: nat, tables: nat, kind: Kind, g: nat, n: nat)
    requires DESCRIPTOR * total <= |s.bgd| && tables * (4 * p) <= |s.bgd| && n < 32 * p && Placed(s, p, total)
    requires g < total && Count(s.bgd, kind, g) > 0 && !Marks(s, p, kind, g)[n]
    ensures Allocated(s, Taken(s, p, tables, kind, g, n), p, total, kind, g, n)
  {
    hide Fields, BitOfBlock, Bit, Bitmap, Count, Less, SetWord;
    var r := Taken(s, p, tables, kind, g, n);
    FieldNames(s.bgd, kind, g);
    FieldsLess(s.bgd, kind, g, g);
    forall h: nat | h < total && h != g
      ensures Fields(r.bgd, h) == Fields(s.bgd, h)
    {
      FieldsLess(s.bgd, kind, g, h);
    }
    BlockTaken(s, p, tables, kind, g, n);
  }

  lemma BlockTaken(s: Image, p: nat, tables: nat, kind: Kind, g: nat, n: nat)
    requires DESCRIPTOR * g + DESCRIPTOR <= |s.bgd| && tables * (4 * p) <= |s.bgd| && n < 32 * p
    requires InDisk(s.disk, 4 * p, BitmapBlock(s.bgd, kind, g)) && InDisk(s.disk, 4 * p, TABLE_BLOCK)
    requires BitmapBlock(s.bgd, kind, g) != TABLE_BLOCK && Count(s.bgd, kind, g) > 0 && !Marks(s, p, kind, g)[n]
    ensures BitOfBlock(s.disk, Taken(s, p, tables, kind, g, n).disk, p, BitmapBlock(s.bgd, kind, g), n)
  {
    hide SetBlock, Bit, WithBit, WordAt, Encode, Patch, BlockOf, BitTaken, Count, Less;
    var b, j, k := BitmapBlock(s.bgd, kind, g), n / 32, n % 32;
    var block := BlockOf(s.disk, 4 * p, b);
    WordTaken(block, j, k);
    BitmapAfterSet(s.disk, p, b, j, k, b);
    var marked := Patch(block, 4 * j, Encode(WithBit(WordAt(block, j), k)));
    var disk := SetBlock(s.disk, 4 * p, b, marked);
    var r := Taken(s, p, tables, kind, g, n).disk;
    forall m: nat | InDisk(s.disk, 4 * p, m) && m != TABLE_BLOCK
      ensures BlockOf(r, 4 * p, m) == if m == b then marked else BlockOf(s.disk, 4 * p, m)
    {
      BlockAfterSet(s.disk, 4 * p, b, marked, m);
      RewrittenIs(disk, p, Less(s.bgd, kind, g), tables, m);
    }
  }

  /** Block 2 ends up holding the last block of the table, and every other block what it held. */
  lemma RewrittenIs(disk: seq<byte>, p: nat, bgd: seq<byte>, n: nat, m: nat)
    requires n * (4 * p) <= |bgd| && InDisk(disk, 4 * p, TABLE_BLOCK) && InDisk(disk, 4 * p, m)
    ensures m != 2 || n == 0 ==> BlockOf(Rewritten(disk, p, bgd, n), 4 * p, m) == BlockOf(disk, 4 * p, m)
    ensures n > 0 ==> 0 <= (n - 1) * (4 * p) <= n * (4 * p)
    ensures n > 0 ==> BlockOf(Rewritten(disk, p, bgd, n), 4 * p, 2) == bgd[(n - 1) * (4 * p)..n * (4 * p)]
  {
    hide SetBlock, BlockOf;
    if n > 0 {
      ChunkBounds(n, 4 * p);
      BlockAfterSet(disk, 4 * p, TABLE_BLOCK, bgd[(n - 1) * (4 * p)..n * (4 * p)], m);
      BlockAfterSet(disk, 4 * p, TABLE_BLOCK, bgd[(n - 1) * (4 * p)..n * (4 * p)], TABLE_BLOCK);
    }
  }

  /** Taking a bit keeps the bitmaps where they are, and, when the bit was clear, every right count right. */
  lemma TakenKeeps(s: Image, p: nat, total: nat, tables: nat, kind: Kind, g: nat, n: nat)
    requires DESCRIPTOR * total <= |s.bgd| && tables * (4 * p) <= |s.bgd| && n < 32 * p
    requires Placed(s, p, total) && g < total && Count(s.bgd, kind, g) > 0
    ensures var r := Taken(s, p, tables, kind, g, n);
      Placed(r, p, total) && (Counted(s, p, total) && !Marks(s, p, kind, g)[n] ==> Counted(r, p, total))
  {
    hide Marks, BitmapBlock, Count, Taken;
    if !Marks(s, p, kind, g)[n] { ZerosSet(Marks(s, p, kind, g), n); }
    var r := Taken(s, p, tables, kind, g, n);
    forall kd: Kind, h: nat | h < total
      ensures BitmapBlock(r.bgd, kd, h) == BitmapBlock(s.bgd, kd, h)
      ensures Counted(s, p, total) && !Marks(s, p, kind, g)[n] ==> Count(r.bgd, kd, h) == Zeros(Marks(r, p, kd, h))
    {
      TakenMarks(s, p, total, tables, kind, g, n, kd, h);
    }
  }

  /** Group g has nothing to give: it counts no free bit, or none of its bits is clear. */
  predicate Full(s: Image, p: nat, kind: Kind, g: nat)
    requires DESCRIPTOR * g + DESCRIPTOR <= |s.bgd|
  {
    Count(s.bgd, kind, g) == 0 || forall m: nat :: m < 32 * p ==> Marks(s, p, kind, g)[m]
  }

  /** With right counts the two agree. */
  lemma CountTells(s: Image, p: nat, total: nat, kind: Kind, g: nat)
    requires DESCRIPTOR * total <= |s.bgd| && Counted(s, p, total) && g < total
    ensures Full(s, p, kind, g) <==> Count(s.bgd, kind, g) == 0
  {
    hide Marks, Count;
    NoZeros(Marks(s, p, kind, g));
  }

  lemma BitmapInDisk(s: Image, p: nat, total: nat, kind: Kind, g: nat)
    requires DESCRIPTOR * total <= |s.bgd| && Placed(s, p, total) && g < total
    ensures InDisk(s.disk, 4 * p, BitmapBlock(s.bgd, kind, g))
  {
  }

  // ---- Runs of allocations ------------------------------------------------------------------------

  /** One allocation handed out: bit n of a bitmap of group g. */
  datatype Grant = Grant(kind: Kind, g: nat, n: nat)

  predicate Good(s: Image, p: nat, total: nat, tables: nat) {
    DESCRIPTOR * total <= |s.bgd| && tables * (4 * p) <= |s.bgd| && Placed(s, p, total)
  }

  /** What Alloc does when it finds a clear bit. */
  predicate Step(s: Image, r: Image, p: nat, total: nat, tables: nat, x: Grant) {
    && Good(s, p, total, tables) && x.g < total && x.n < 32 * p && Count(s.bgd, x.kind, x.g) > 0
    && !Marks(s, p, x.kind, x.g)[x.n] && r == Taken(s, p, tables, x.kind, x.g, x.n)
  }

  lemma StepKeeps(s: Image, r: Image, p: nat, total: nat, tables: nat, x: Grant, kd: Kind, h: nat, m: nat)
    requires Step(s, r, p, total, tables, x) && h < total && m < 32 * p
    ensures Good(r, p, total, tables) && (Counted(s, p, total) ==> Counted(r, p, total))
    ensures Marks(r, p, kd, h)[m] == (Marks(s, p, kd, h)[m] || x == Grant(kd, h, m))
  {
    hide Placed, Counted, Taken, Marks, Count;
    TakenKeeps(s, p, total, tables, x.kind, x.g, x.n);
    TakenMarks(s, p, total, tables, x.kind, x.g, x.n, kd, h);
  }

  predicate Run(states: seq<Image>, p: nat, total: nat, tables: nat, xs: seq<Grant>) {
    |states| == |xs| + 1 && forall i :: 0 <= i < |xs| ==> Step(states[i], states[i + 1], p, total, tables, xs[i])
  }

  /** After any run exactly the bits set before it and the ones handed out in it are set. */
  lemma {:induction false} RunMarks(states: seq<Image>, p: nat, total: nat, tables: nat, xs: seq<Grant>, kd: Kind, h: nat, m: nat)
    requires Run(states, p, total, tables, xs) && Good(states[0], p, total, tables) && h < total && m < 32 * p
    ensures Good(states[|xs|], p, total, tables)
    ensures Marks(states[|xs|], p, kd, h)[m] <==> Marks(states[0], p, kd, h)[m] || Grant(kd, h, m) in xs
  {
    hide Good, Step, Marks;
    if xs != [] {
      var n := |xs| - 1;
      RunMarks(states[..n + 1], p, total, tables, xs[..n], kd, h, m);
      StepKeeps(states[n], states[n + 1], p, total, tables, xs[n], kd, h, m);
      assert xs == xs[..n] + [xs[n]];
      GoodShape(states[0], p, total, tables);
      GoodShape(states[n], p, total, tables);
      GoodShape(states[n + 1], p, total, tables);
    } else {
      GoodShape(states[0], p, total, tables);
    }
  }

  lemma GoodShape(s: Image, p: nat, total: nat, tables: nat)
    requires Good(s, p, total, tables)
    ensures DESCRIPTOR * total <= |s.bgd|
  {
  }

  /** No bit is handed out twice in a run. */
  lemma {:induction false} GrantsDistinct(states: seq<Image>, p: nat, total: nat, tables: nat, xs: seq<Grant>, i: nat, j: nat)
    requires Run(states, p, total, tables, xs) && i < j < |xs|
    ensures xs[i] != xs[j]
  {
    hide Placed, Counted, Marks;
    var x := xs[j];
    assert Step(states[0], states[1], p, total, tables, xs[0]) && Step(states[j], states[j + 1], p, total, tables, x);
    RunMarks(states[..j + 1], p, total, tables, xs[..j], x.kind, x.g, x.n);
    assert xs[..j][i] == xs[i];
  }

  /** The 32-bit number returned for bit n of group g. */
  function Number(per: nat, g: nat, n: nat): nat { (g * per + n) % WORD_LIMIT }

  predicate Distinct(per: nat, bits: nat, total: nat) {
    forall g1: nat, n1: nat, g2: nat, n2: nat | g1 < total && g2 < total && n1 < bits && n2 < bits && (g1 != g2 || n1 != n2) ::
      Number(per, g1, n1) != Number(per, g2, n2)
  }

  /** Group g begins at least `bits` numbers away from group 0, in both directions around the 32-bit circle. */
  predicate Clear(per: nat, bits: nat, g: nat) { bits <= g * per % WORD_LIMIT <= WORD_LIMIT - bits }

  /** The numbers returned for distinct bits are distinct exactly when every group but the first is clear of it. */
  lemma NumbersDistinct(per: nat, bits: nat, total: nat)
    requires total > 0
    ensures Distinct(per, bits, total) <==> bits <= WORD_LIMIT && forall d: nat :: 0 < d < total ==> Clear(per, bits, d)
  {
    if bits > WORD_LIMIT {
      assert Number(per, 0, 0) == Number(per, 0, WORD_LIMIT);
    } else if d: nat :| 0 < d < total && !Clear(per, bits, d) {
      var m := d * per % WORD_LIMIT;
      if m < bits {
        assert Number(per, d, 0) == Number(per, 0, m);
      } else {
        Circle(d * per, WORD_LIMIT - m);
        assert Number(per, d, WORD_LIMIT - m) == Number(per, 0, 0);
      }
    } else {
      forall g1: nat, n1: nat, g2: nat, n2: nat | g1 < total && g2 < total && n1 < bits && n2 < bits && (g1 != g2 || n1 != n2)
        ensures Number(per, g1, n1) != Number(per, g2, n2)
      {
        if g1 <= g2 {
          Apart(per, bits, total, g1, n1, g2, n2);
        } else {
          Apart(per, bits, total, g2, n2, g1, n1);
        }
      }
    }
  }

  lemma Circle(a: nat, b: nat)
    requires (a % WORD_LIMIT + b) % WORD_LIMIT == 0
    ensures (a + b) % WORD_LIMIT == 0
  {
  }

  lemma Apart(per: nat, bits: nat, total: nat, g1: nat, n1: nat, g2: nat, n2: nat)
    requires bits <= WORD_LIMIT && forall d: nat :: 0 < d < total ==> Clear(per, bits, d)
    requires g1 <= g2 < total && n1 < bits && n2 < bits && (g1 != g2 || n1 != n2)
    ensures Number(per, g1, n1) != Number(per, g2, n2)
  {
    var a, e := g1 * per, (g2 - g1) * per;
    assert g2 * per == a + e;
    if g1 < g2 { assert Clear(per, bits, g2 - g1); }
    ApartSums(a, e, n1, n2, bits);
  }

  lemma ApartSums(a: nat, e: nat, n1: nat, n2: nat, bits: nat)
    requires bits <= WORD_LIMIT && n1 < bits && n2 < bits
    requires (e == 0 && n1 != n2) || bits <= e % WORD_LIMIT <= WORD_LIMIT - bits
    ensures (a + n1) % WORD_LIMIT != (a + e + n2) % WORD_LIMIT
  {
  }

  /** The bits of a bitmap that stand for no member of its group are set, as a file system leaves them. */
  predicate Padded(s: Image, p: nat, total: nat, kind: Kind, per: nat)
    requires DESCRIPTOR * total <= |s.bgd|
  {
    forall g: nat, m: nat :: g < total && per <= m < 32 * p ==> Marks(s, p, kind, g)[m]
  }

  /** Then they are never handed out. */
  lemma GrantBelow(states: seq<Image>, p: nat, total: nat, tables: nat, xs: seq<Grant>, i: nat, per: nat)
    requires Run(states, p, total, tables, xs) && i < |xs| && Good(states[0], p, total, tables)
    requires Padded(states[0], p, total, xs[i].kind, per)
    ensures xs[i].g < total && xs[i].n < per
  {
    hide Placed, Marks, Taken, Count;
    var x := xs[i];
    assert Step(states[i], states[i + 1], p, total, tables, x);
    RunMarks(states[..i + 1], p, total, tables, xs[..i], x.kind, x.g, x.n);
  }

  lemma NumbersApart(per: nat, total: nat, g1: nat, n1: nat, g2: nat, n2: nat)
    requires g1 < total && g2 < total && n1 < per && n2 < per && total * per <= WORD_LIMIT && (g1 != g2 || n1 != n2)
    ensures Number(per, g1, n1) != Number(per, g2, n2)
  {
    NumberFits(per, total, g1, n1);
    NumberFits(per, total, g2, n2);
  }

  lemma NumberFits(per: nat, total: nat, g: nat, n: nat)
    requires g < total && n < per && total * per <= WORD_LIMIT
    ensures Number(per, g, n) == g * per + n && Number(per, g, n) / per == g && Number(per, g, n) % per == n
  {
    Monotone(g + 1, total, per);
    assert (g + 1) * per == g * per + per;
    DivUnique(g * per + n, per, g, n);
  }

  /** No run of calls returns the same number twice for one kind. */
  lemma NumbersInRun(states: seq<Image>, p: nat, total: nat, tables: nat, xs: seq<Grant>, i: nat, j: nat, per: nat)
    requires Run(states, p, total, tables, xs) && i < j < |xs| && xs[i].kind == xs[j].kind && Good(states[0], p, total, tables)
    requires Padded(states[0], p, total, xs[i].kind, per) && total * per <= WORD_LIMIT
    ensures Number(per, xs[i].g, xs[i].n) != Number(per, xs[j].g, xs[j].n)
  {
    hide Run, Good, Number, Padded;
    GrantsDistinct(states, p, total, tables, xs, i, j);
    GrantBelow(states, p, total, tables, xs, i, per);
    GrantBelow(states, p, total, tables, xs, j, per);
    NumbersApart(per, total, xs[i].g, xs[i].n, xs[j].g, xs[j].n);
  }

  /** What a word of the bitmap block tells about its 32 bits. */
  lemma WordOfBitmap(s: Image, p: nat, kind: Kind, g: nat, j: nat, sub: nat)
    requires DESCRIPTOR * g + DESCRIPTOR <= |s.bgd| && j < p && InDisk(s.disk, 4 * p, BitmapBlock(s.bgd, kind, g))
    requires sub == WordAt(BlockOf(s.disk, 4 * p, BitmapBlock(s.bgd, kind, g)), j)
    ensures sub < WORD_LIMIT && forall k: nat :: k < 32 ==> Bit(sub, k) == Marks(s, p, kind, g)[32 * j + k]
    ensures sub == 0xFFFF_FFFF <==> forall m: nat :: 32 * j <= m < 32 * j + 32 ==> Marks(s, p, kind, g)[m]
  {
    hide WordAt, BlockOf, InDisk;
    Pow32();
    AllOnes(sub, 32);
    forall k: nat | k < 32
      ensures Bit(sub, k) == Marks(s, p, kind, g)[32 * j + k]
    {
      DivUnique(32 * j + k, 32, j, k);
    }
    var marks := Marks(s, p, kind, g);
    if sub == 0xFFFF_FFFF {
      forall m: nat | 32 * j <= m < 32 * j + 32
        ensures marks[m]
      {
        assert Bit(sub, m - 32 * j);
      }
    } else {
      var k: nat :| k < 32 && !Bit(sub, k);
      assert !marks[32 * j + k];
    }
  }

  class Groups {
    const fs: FileSystem
    const bgd: array<byte>                      // the descriptors of all groups
    const total: nat                            // fs->total_groups
    const tables: nat                           // fs->bgd_block
    const perGroup: map<Kind, word>             // fs->block_per_group and fs->inodes_per_group

    constructor (fs: FileSystem, bgd: array<byte>, total: nat, tables: nat, blocks: word, inodes: word)
      ensures this.fs == fs && this.bgd == bgd && this.total == total && this.tables == tables
      ensures perGroup == map[Blocks := blocks, Inodes := inodes]
    {
      this.fs, this.bgd, this.total, this.tables := fs, bgd, total, tables;
      perGroup := map[Blocks := blocks, Inodes := inodes];
    }

    ghost function Now(): Image
      reads fs.device.medium, bgd
    {
      Image(fs.device.medium[..], bgd[..])
    }

    ghost predicate Shaped() {
      && fs.Valid() && bgd != fs.device.medium && Blocks in perGroup && Inodes in perGroup
      && DESCRIPTOR * total <= bgd.Length && tables * (4 * fs.p) <= bgd.Length
    }

    ghost predicate Valid()
      reads fs.device.medium, bgd
    {
      Shaped() && Placed(Now(), fs.p, total)
    }

    method RewriteBgd()
      requires Shaped() && InDisk(fs.device.medium[..], 4 * fs.p, TABLE_BLOCK)
      modifies fs.device.medium
      ensures fs.device.medium[..] == Rewritten(old(fs.device.medium[..]), fs.p, bgd[..], tables)
    {
      hide SetBlock, Patch;
      var bs := 4 * fs.p;
      ghost var was := fs.device.medium[..];
      var i := 0;
      while i < tables
        invariant 0 <= i <= tables && i * bs <= bgd.Length
        invariant fs.device.medium[..] == Rewritten(was, fs.p, bgd[..], i)
      {
        Monotone(i + 1, tables, bs);
        assert (i + 1) * bs == i * bs + bs;
        var chunk := new byte[bs];
        PatchAll(chunk[..], bgd[i * bs..i * bs + bs]);
        Memcpy(chunk, 0, bgd, i * bs, bs);
        RewriteOver(was, fs.p, bgd[..], i);
        fs.WriteDiskBlock(TABLE_BLOCK, chunk);
        i := i + 1;
      }
    }

    /** The body of the innermost branch: mark the bit, write the bitmap back, count it. */
    method Take(kind: Kind, g: nat, j: nat, k: nat, buf: array<byte>)
      requires Shaped() && Placed(Now(), fs.p, total) && g < total && j < fs.p && k < 32 && Count(bgd[..], kind, g) > 0
      requires buf != fs.device.medium && buf != bgd && buf.Length == 4 * fs.p
      requires buf[..] == BlockOf(fs.device.medium[..], 4 * fs.p, BitmapBlock(bgd[..], kind, g))
      modifies fs.device.medium, bgd, buf
      ensures Now() == Taken(old(Now()), fs.p, tables, kind, g, 32 * j + k)
    {
      hide SetBlock, BlockOf, Patch, WithBit, Encode, WordAt, Less;
      ghost var s := Now();
      DivUnique(32 * j + k, 32, j, k);
      var bitmap := BitmapBlock(bgd[..], kind, g);
      BitmapAfterSet(fs.device.medium[..], fs.p, bitmap, j, k, bitmap);
      fs.PutWord(buf, j, WithBit(WordAt(buf[..], j), k));
      fs.WriteDiskBlock(bitmap, buf);
      CountDown(kind, g);
      RewriteBgd();
    }

    /** free_blocks_count-- or free_inodes_count-- */
    method CountDown(kind: Kind, g: nat)
      requires DESCRIPTOR * g + DESCRIPTOR <= bgd.Length && Count(bgd[..], kind, g) > 0
      modifies bgd
      ensures bgd[..] == Less(old(bgd[..]), kind, g)
    {
      var c := Count(bgd[..], kind, g) - 1;
      bgd[CountAt(kind, g)] := c % 0x100;
      bgd[CountAt(kind, g) + 1] := c / 0x100;
    }

    /** Bit n of group g is the first clear bit of the first group that counts a free bit and has a clear one. */
    ghost predicate First(s: Image, kind: Kind, g: nat, n: nat)
      requires DESCRIPTOR * total <= |s.bgd|
    {
      && g < total && n < 32 * fs.p && Count(s.bgd, kind, g) > 0
      && (forall h: nat :: h < g ==> Full(s, fs.p, kind, h))
      && !Marks(s, fs.p, kind, g)[n]
      && (forall m: nat :: m < n ==> Marks(s, fs.p, kind, g)[m])
    }

    /** The loops over the words and bits of one bitmap. */
    method FirstClear(kind: Kind, g: nat, buf: array<byte>) returns (found: bool, j: nat, k: nat)
      requires Shaped() && Placed(Now(), fs.p, total) && g < total && buf.Length == 4 * fs.p
      requires buf[..] == BlockOf(fs.device.medium[..], 4 * fs.p, BitmapBlock(bgd[..], kind, g))
      ensures found ==> j < fs.p && k < 32 && !Marks(Now(), fs.p, kind, g)[32 * j + k]
      ensures found ==> forall m: nat :: m < 32 * j + k ==> Marks(Now(), fs.p, kind, g)[m]
      ensures !found ==> forall m: nat :: m < 32 * fs.p ==> Marks(Now(), fs.p, kind, g)[m]
    {
      hide Marks, BitmapBlock, BlockOf, InDisk, WordAt, Placed;
      ghost var s := Now();
      ghost var marks := Marks(s, fs.p, kind, g);
      BitmapInDisk(s, fs.p, total, kind, g);
      found, k := false, 0;
      j := 0;
      while j < fs.p
        invariant 0 <= j <= fs.p && forall m: nat :: m < 32 * j ==> marks[m]
      {
        var sub := WordAt(buf[..], j);
        WordOfBitmap(s, fs.p, kind, g, j, sub);
        if sub != 0xFFFF_FFFF {
          k := 0;
          while k < 32
            invariant 0 <= k <= 32 && forall m: nat :: m < 32 * j + k ==> marks[m]
          {
            if !Bit(sub, k) {
              found := true;
              return;
            }
            k := k + 1;
          }
        }
        j := j + 1;
      }
    }

    /** One turn of the loop over the groups, for a group that counts a free bit. */
    method AllocIn(kind: Kind, g: nat, buf: array<byte>) returns (found: bool, r: word, ghost n: nat)
      requires Valid() && g < total && Count(bgd[..], kind, g) > 0
      requires buf != fs.device.medium && buf != bgd && buf.Length == 4 * fs.p
      modifies fs.device.medium, bgd, buf
      ensures Valid() && (old(Counted(Now(), fs.p, total)) ==> Counted(Now(), fs.p, total))
      ensures !found ==> Now() == old(Now()) && Full(Now(), fs.p, kind, g)
      ensures found ==> n < 32 * fs.p && r == Number(perGroup[kind], g, n)
      ensures found ==> forall m: nat :: m < n ==> Marks(old(Now()), fs.p, kind, g)[m]
      ensures found ==> Step(old(Now()), Now(), fs.p, total, tables, Grant(kind, g, n))
    {
      hide Placed, Counted, Marks, Count, Taken, BitmapBlock, BlockOf, InDisk;
      ghost var s := Now();
      var bitmap := BitmapBlock(bgd[..], kind, g);
      BitmapInDisk(s, fs.p, total, kind, g);
      fs.ReadDiskBlock(bitmap, buf);
      var j, k;
      found, j, k := FirstClear(kind, g, buf);
      assert Now() == s;
      n, r := 32 * j + k, NONE;
      if found {
        TakenKeeps(s, fs.p, total, tables, kind, g, n);
        Take(kind, g, j, k, buf);
        r := (g * perGroup[kind] + j * 32 + k) % WORD_LIMIT;
      }
    }

    /** EXT2_alloc_block and alloc_inode: the first clear bit of the first group that counts a free one and has one;
        none only when every group is full. */
    method Alloc(kind: Kind) returns (r: word, ghost grant: Option<Grant>)
      requires Valid()
      modifies fs.device.medium, bgd
      ensures Valid() && (old(Counted(Now(), fs.p, total)) ==> Counted(Now(), fs.p, total))
      ensures grant == None <==> forall h: nat :: h < total ==> Full(old(Now()), fs.p, kind, h)
      ensures grant == None ==> r == NONE && Now() == old(Now())
      ensures grant.Some? ==> var x := grant.value;
        && x.kind == kind && First(old(Now()), kind, x.g, x.n)
        && r == (x.g * perGroup[kind] + x.n) % 0x1_0000_0000 == Number(perGroup[kind], x.g, x.n)
        && Step(old(Now()), Now(), fs.p, total, tables, x)
        && Allocated(old(Now()), Now(), fs.p, total, kind, x.g, x.n)
    {
      hide Placed, Counted, Marks, Count, Taken, BitmapBlock, BlockOf, InDisk, Full, Allocated;
      ghost var s := Now();
      var buf := new byte[4 * fs.p](_ => 0);
      grant := None;
      var i := 0;
      while i < total
        invariant 0 <= i <= total && Now() == s && fresh(buf) && Valid()
        invariant forall h: nat :: h < i ==> Full(s, fs.p, kind, h)
      {
        if Count(bgd[..], kind, i) != 0 {
          var found;
          ghost var n;
          found, r, n := AllocIn(kind, i, buf);
          if found {
            grant := Some(Grant(kind, i, n));
            NotFull(s, kind, i, n);
            TakenIsAllocated(s, fs.p, total, tables, kind, i, n);
            return;
          }
        } else {
          ZeroIsFull(s, kind, i);
        }
        i := i + 1;
      }
      r := NONE;
    }

    lemma ZeroIsFull(s: Image, kind: Kind, g: nat)
      requires DESCRIPTOR * total <= |s.bgd| && g < total && Count(s.bgd, kind, g) == 0
      ensures Full(s, fs.p, kind, g)
    {
    }

    lemma NotFull(s: Image, kind: Kind, g: nat, n: nat)
      requires DESCRIPTOR * total <= |s.bgd| && g < total && Count(s.bgd, kind, g) > 0 && n < 32 * fs.p && !Marks(s, fs.p, kind, g)[n]
      ensures !Full(s, fs.p, kind, g)
    {
    }

    function Per(kind: Kind): word
      requires Blocks in perGroup && Inodes in perGroup
    {
      if kind == Blocks then perGroup[Blocks] else perGroup[Inodes]
    }

    /** The numbers of this kind are words, and bits that stand for none are set. */
    ghost predicate Numbered(s: Image, kind: Kind)
      requires Shaped() && DESCRIPTOR * total <= |s.bgd|
    {
      Padded(s, fs.p, total, kind, Per(kind)) && total * Per(kind) <= WORD_LIMIT
    }

    /** Any sequence of calls: the numbers given out for one kind are pairwise distinct. */
    method AllocMany(kinds: seq<Kind>) returns (rs: seq<word>, ghost grants: seq<Option<Grant>>)
      requires Valid() && forall kind :: kind in kinds ==> Numbered(Now(), kind)
      modifies fs.device.medium, bgd
      ensures Valid() && |rs| == |grants| == |kinds|
      ensures forall i :: 0 <= i < |kinds| && grants[i] == None ==> rs[i] == NONE
      ensures forall i, j :: 0 <= i < j < |kinds| && kinds[i] == kinds[j] && grants[i].Some? && grants[j].Some? ==> rs[i] != rs[j]
    {
      hide Placed, Counted, Marks, Count, Taken, Step, Number, Padded, Allocated, First, Full;
      rs, grants := [], [];
      ghost var first := Now();
      ghost var states, xs := [first], [];
      while |rs| < |kinds|
        invariant Valid() && |rs| == |grants| <= |kinds|
        invariant Run(states, fs.p, total, tables, xs) && states[|xs|] == Now() && states[0] == first
        invariant forall x :: x in xs ==> x.kind in kinds
        invariant forall i :: 0 <= i < |rs| && grants[i] == None ==> rs[i] == NONE
        invariant forall i :: 0 <= i < |rs| && grants[i].Some? ==>
          grants[i].value in xs && grants[i].value.kind == kinds[i] && rs[i] == NumberOf(grants[i].value)
        invariant forall i, j :: 0 <= i < j < |rs| && kinds[i] == kinds[j] && grants[i].Some? && grants[j].Some? ==> rs[i] != rs[j]
      {
        ghost var s := Now();
        var r;
        ghost var grant;
        r, grant := Alloc(kinds[|rs|]);
        if grant.Some? {
          ghost var xs', states' := xs + [grant.value], states + [Now()];
          assert Run(states', fs.p, total, tables, xs');
          NewNumber(states', xs');
          xs, states := xs', states';
        }
        rs, grants := rs + [r], grants + [grant];
      }
    }

    ghost function NumberOf(x: Grant): nat
      requires Blocks in perGroup && Inodes in perGroup
    {
      Number(Per(x.kind), x.g, x.n)
    }

    lemma NewNumber(states: seq<Image>, xs: seq<Grant>)
      requires Shaped() && Run(states, fs.p, total, tables, xs) && xs != [] && Good(states[0], fs.p, total, tables)
      requires Numbered(states[0], xs[|xs| - 1].kind)
      ensures forall x :: x in xs[..|xs| - 1] && x.kind == xs[|xs| - 1].kind ==> NumberOf(x) != NumberOf(xs[|xs| - 1])
    {
      hide Step, Number, Padded;
      var j := |xs| - 1;
      forall x | x in xs[..j] && x.kind == xs[j].kind
        ensures NumberOf(x) != NumberOf(xs[j])
      {
        var i :| 0 <= i < j && xs[..j][i] == x;
        NumbersInRun(states, fs.p, total, tables, xs, i, j, Per(x.kind));
      }
    }
  }
}
