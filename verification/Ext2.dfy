/** EXT2 files over a byte device: the block map as the driver walks and writes it, and file reads
    (src/fs/ext2.c:345-410, 459-577). */
module Ext2 {
  import opened Arithmetic
  import opened Bytes
  import opened BlockTree
  import AtaPio

  // ---- The file as a flat sequence of bytes -------------------------------------------------------

  /** get_DBlock_num finds a number for file block i; where a table is missing it reads block 0 instead. */
  predicate Found(v: Volume, p: nat, i: nat)
    requires |v.blocks| == ROOTS && p > 0
  {
    IsLeaf(p, Locate(p, i)) && OnDisk(v.disk, p, v.blocks, Locate(p, i))
  }

  predicate Readable(v: Volume, p: nat, i: nat)
    requires |v.blocks| == ROOTS && p > 0
  {
    i < MaxBlocks(p) && Found(v, p, i) && InDisk(v.disk, 4 * p, DBlock(v, p, i))
  }

  lemma MappedFound(v: Volume, p: nat, i: nat)
    requires |v.blocks| == ROOTS && p > 0 && Mapped(v, p, i)
    ensures Found(v, p, i)
  {
    ReachedOnDisk(v.disk, p, v.blocks, Locate(p, i));
  }

  function FileBlock(v: Volume, p: nat, i: nat): (b: seq<byte>)
    requires |v.blocks| == ROOTS && p > 0 && Readable(v, p, i)
    ensures |b| == 4 * p
  {
    BlockOf(v.disk, 4 * p, DBlock(v, p, i))
  }

  /** Byte k of file block i; 0 where there is no such block. */
  function BlockByte(v: Volume, p: nat, i: nat, k: nat): byte
    requires |v.blocks| == ROOTS && p > 0 && k < 4 * p
  {
    if Readable(v, p, i) then FileBlock(v, p, i)[k] else 0
  }

  /** Byte x of the file: byte x % bs of the block that get_DBlock_num names for x / bs. */
  function FileByte(v: Volume, p: nat, x: nat): byte
    requires |v.blocks| == ROOTS && p > 0
  {
    BlockByte(v, p, x / (4 * p), x % (4 * p))
  }

  function FileSlice(v: Volume, p: nat, lo: nat, hi: nat): (r: seq<byte>)
    requires |v.blocks| == ROOTS && p > 0 && lo <= hi
    ensures |r| == hi - lo
  {
    seq<byte>(hi - lo, k requires 0 <= k < hi - lo => FileByte(v, p, lo + k))
  }

  function File(v: Volume, p: nat, size: nat): seq<byte>
    requires |v.blocks| == ROOTS && p > 0
  {
    FileSlice(v, p, 0, size)
  }

  lemma SliceOfFile(v: Volume, p: nat, lo: nat, hi: nat, size: nat)
    requires |v.blocks| == ROOTS && p > 0 && lo <= hi <= size
    ensures File(v, p, size)[lo..hi] == FileSlice(v, p, lo, hi)
  {
    hide FileByte;
  }

  lemma JoinSlices(v: Volume, p: nat, lo: nat, mid: nat, hi: nat)
    requires |v.blocks| == ROOTS && p > 0 && lo <= mid <= hi
    ensures FileSlice(v, p, lo, mid) + FileSlice(v, p, mid, hi) == FileSlice(v, p, lo, hi)
  {
    hide FileByte;
  }

  /** A piece of one block is that piece of the file. */
  lemma PieceOfBlock(v: Volume, p: nat, i: nat, first: nat, lo: nat, hi: nat)
    requires first == i * (4 * p)
    requires |v.blocks| == ROOTS && p > 0 && lo <= hi <= 4 * p && Readable(v, p, i)
    ensures FileBlock(v, p, i)[lo..hi] == FileSlice(v, p, first + lo, first + hi)
  {
    hide FileBlock, Readable;
    var b, r := FileBlock(v, p, i), FileSlice(v, p, first + lo, first + hi);
    forall k | 0 <= k < hi - lo
      ensures r[k] == b[lo + k]
    {
      var x := first + lo + k;
      DivUnique(x, 4 * p, i, lo + k);
      assert r[k] == FileByte(v, p, x);
    }
  }

  /** The file is its blocks, one after the other. */
  lemma FileIsBlocks(v: Volume, p: nat, n: nat, first: nat)
    requires |v.blocks| == ROOTS && p > 0 && Readable(v, p, n) && first == n * (4 * p)
    ensures File(v, p, first + 4 * p) == File(v, p, first) + FileBlock(v, p, n)
  {
    hide FileBlock, Readable, FileSlice;
    var s, b := 4 * p, FileBlock(v, p, n);
    PieceOfBlock(v, p, n, first, 0, s);
    assert b[0..s] == b;
    JoinSlices(v, p, 0, first, first + s);
  }

  /** Recording block d for file block i gives that file block the bytes of d and leaves every other one as it was,
      as long as the data is kept away from the table that is written. */
  lemma FileAfterSet(v: Volume, p: nat, i: nat, d: nat, j: nat)
    requires |v.blocks| == ROOTS && p > 0 && Sound(v.disk, p, v.blocks) && d < WORD_LIMIT
    requires i < MaxBlocks(p) && !FirstOfLevel(p, i) && Mapped(v, p, i) && j < MaxBlocks(p) && Mapped(v, p, j)
    requires var n := if i == j then d else DBlock(v, p, j); InDisk(v.disk, 4 * p, n) && n != TableOf(v, p, i)
    ensures SetLocate(p, i) == Locate(p, i)
    ensures var r := Store(v, p, SetLocate(p, i), d);
      && Readable(r, p, j)
      && FileBlock(r, p, j) == BlockOf(v.disk, 4 * p, if i == j then d else DBlock(v, p, j))
  {
    hide Store, Locate, SetLocate, DBlock, Found;
    GetAfterSet(v, p, i, d, j);
    MappedFound(Store(v, p, SetLocate(p, i), d), p, j);
    BlockAfterStore(v, p, i, d, if i == j then d else DBlock(v, p, j));
  }

  /** The block that set_DBlock_num writes; none for a direct block. */
  function TableOf(v: Volume, p: nat, i: nat): int
    requires |v.blocks| == ROOTS && p > 0 && i < MaxBlocks(p) && Mapped(v, p, i)
  {
    var s := Locate(p, i);
    if |s| == 1 then -1
    else
      ParentIsTable(p, s);
      Num(v.disk, p, v.blocks, Parent(s))
  }

  lemma BlockAfterStore(v: Volume, p: nat, i: nat, d: nat, n: nat)
    requires |v.blocks| == ROOTS && p > 0 && d < WORD_LIMIT && i < MaxBlocks(p) && Mapped(v, p, i)
    requires InDisk(v.disk, 4 * p, n) && n != TableOf(v, p, i)
    ensures BlockOf(Store(v, p, Locate(p, i), d).disk, 4 * p, n) == BlockOf(v.disk, 4 * p, n)
  {
    hide Locate, SetBlock, Patch, Num;
    var s := Locate(p, i);
    if |s| > 1 {
      ParentIsTable(p, s);
      var t := Num(v.disk, p, v.blocks, Parent(s));
      assert Present(v.disk, p, v.blocks, Parent(s));
      BlockAfterSet(v.disk, 4 * p, t, Patch(BlockOf(v.disk, 4 * p, t), 4 * s[|s| - 1], Encode(d)), n);
    }
  }

  // ---- The bounds of a read -----------------------------------------------------------------------

  /** Unsigned 32-bit subtraction. */
  function Sub32(x: int, y: int): nat { (x - y) % WORD_LIMIT }

  function EndOffset(fileSize: nat, offset: nat, size: nat): nat {
    if fileSize >= (offset + size) % WORD_LIMIT then (offset + size) % WORD_LIMIT else fileSize
  }

  lemma EndOf(fileSize: word, offset: word, size: word)
    ensures EndOffset(fileSize, offset, size) <= fileSize
    ensures offset + size < WORD_LIMIT && offset <= fileSize ==>
      Sub32(EndOffset(fileSize, offset, size), offset) == if offset + size <= fileSize then size else fileSize - offset
    ensures forall end: word :: Sub32(end, offset) == if offset <= end then end - offset else end - offset + WORD_LIMIT
  {
  }

  /** The piece of block i that the loop body copies: its first byte and its length, in 32-bit arithmetic. */
  function Left(bs: nat, offset: nat, i: nat): nat
    requires bs > 0
  {
    if i == offset / bs then offset % bs else 0
  }

  function Length(bs: nat, offset: nat, end: nat, i: nat): nat
    requires bs > 0
  {
    var right := if i == end / bs then Sub32(end - end / bs * bs, 1) else bs - 1;
    Sub32(right + 1, Left(bs, offset, i))
  }

  /** How many bytes the loop has copied when it comes to block i. */
  function Copied(bs: nat, offset: nat, end: nat, i: nat): int {
    if i * bs <= offset then 0 else if i * bs <= end then i * bs - offset else end - offset
  }

  /** Every pass copies the part of [offset, end) that lies in its block, which is empty for a last block that
      begins at end. */
  lemma Pass(bs: nat, offset: nat, end: nat, i: nat)
    requires 0 < bs <= 4096 && offset <= end < WORD_LIMIT && offset / bs <= i <= end / bs
    ensures var left, n, done := Left(bs, offset, i), Length(bs, offset, end, i), Copied(bs, offset, end, i);
      && 0 <= left && left + n <= bs && 0 <= done && i * bs + left == offset + done
      && Copied(bs, offset, end, i + 1) == done + n && done + n <= end - offset
      && (n > 0 ==> i * bs < end)
  {
    hide Copied;
    DivMod(offset, bs);
    DivMod(end, bs);
    Monotone(offset / bs, i, bs);
    Monotone(i, end / bs, bs);
    assert (i + 1) * bs == i * bs + bs;
    if i > offset / bs { Monotone(offset / bs + 1, i, bs); assert (offset / bs + 1) * bs == offset / bs * bs + bs; }
    if i < end / bs { Monotone(i + 1, end / bs, bs); }
    PassLength(bs, offset, end, i);
    CopiedAt(bs, offset, end, i);
    CopiedAt(bs, offset, end, i + 1);
  }

  lemma CopiedAt(bs: nat, offset: nat, end: nat, i: nat)
    ensures i * bs <= offset ==> Copied(bs, offset, end, i) == 0
    ensures offset < i * bs <= end ==> Copied(bs, offset, end, i) == i * bs - offset
    ensures offset < i * bs && end < i * bs ==> Copied(bs, offset, end, i) == end - offset
  {
  }

  lemma PassLength(bs: nat, offset: nat, end: nat, i: nat)
    requires 0 < bs <= 4096 && offset <= end < WORD_LIMIT && offset / bs <= i <= end / bs
    ensures Length(bs, offset, end, i) == (if i == end / bs then end % bs else bs) - Left(bs, offset, i)
  {
    DivMod(offset, bs);
    DivMod(end, bs);
  }

  /** A read that starts past the end of the file copies too much exactly when it starts in the file's last
      block: the length wraps around. Otherwise it copies nothing. */
  lemma PastTheEnd(bs: nat, offset: nat, end: nat)
    requires 0 < bs <= 4096 && end < offset < WORD_LIMIT
    ensures offset / bs <= end / bs <==> offset / bs == end / bs
    ensures offset / bs == end / bs ==> Length(bs, offset, end, end / bs) == WORD_LIMIT - (offset - end)
  {
    DivMod(offset, bs);
    DivMod(end, bs);
    Ordered(end, offset, bs);
  }

  lemma ReadPass(v: Volume, p: nat, was: seq<byte>, offset: nat, curr: nat, i: nat, block: seq<byte>, left: nat, n: nat)
    requires |v.blocks| == ROOTS && p > 0 && |block| == 4 * p && left + n <= 4 * p && curr + n <= |was|
    requires i * (4 * p) + left == offset + curr
    requires n > 0 ==> Readable(v, p, i) && block == FileBlock(v, p, i)
    ensures Patch(Patch(was, 0, FileSlice(v, p, offset, offset + curr)), curr, block[left..left + n])
      == Patch(was, 0, FileSlice(v, p, offset, offset + curr + n))
  {
    hide FileSlice, Readable, FileBlock, Patch;
    if n == 0 {
      PatchNothing(Patch(was, 0, FileSlice(v, p, offset, offset + curr)), curr);
    } else {
      PieceOfBlock(v, p, i, i * (4 * p), left, left + n);
      JoinSlices(v, p, offset, offset + curr, offset + curr + n);
      PatchTwice(was, 0, FileSlice(v, p, offset, offset + curr), block[left..left + n]);
    }
  }

  lemma Blocks32(bs: nat, end: nat)
    requires bs >= 4 && end < WORD_LIMIT
    ensures end / bs < INT_LIMIT
  {
    DivMod(end, bs);
    Monotone(4, bs, end / bs);
  }

  lemma PieceIs(bs: nat, offset: nat, end: nat, i: nat, left: nat, right: nat, length: nat)
    requires bs > 0 && left == (if i == offset / bs then offset % bs else 0)
    requires right == (if i == end / bs then Sub32(end - end / bs * bs, 1) else bs - 1) && length == Sub32(right + 1, left)
    ensures left == Left(bs, offset, i) && length == Length(bs, offset, end, i)
  {
  }

  lemma CopiedEnds(bs: nat, offset: nat, end: nat)
    requires bs > 0 && offset <= end
    ensures 0 <= offset / bs <= end / bs
    ensures Copied(bs, offset, end, offset / bs) == 0 && Copied(bs, offset, end, end / bs + 1) == end - offset
  {
    Ordered(offset, end, bs);
    DivMod(offset, bs);
    DivBelow(end, bs, end / bs + 1);
  }

  lemma BoundsOfRead(bs: nat, offset: nat, end: nat)
    requires bs > 0 && (offset <= end || offset / bs != end / bs)
    ensures if offset <= end then 0 <= offset / bs <= end / bs && Copied(bs, offset, end, offset / bs) == 0
        && Copied(bs, offset, end, end / bs + 1) == end - offset else 0 <= end / bs < offset / bs
  {
    if offset <= end { CopiedEnds(bs, offset, end); } else { Ordered(end, offset, bs); }
  }

  // ---- Walking the block map ----------------------------------------------------------------------

  lemma StoreAtRoot(v: Volume, p: nat, k: nat, x: nat)
    requires |v.blocks| == ROOTS && k < ROOTS && x < WORD_LIMIT
    ensures IsPlace(p, [k]) && Reached(v.disk, p, v.blocks, [k])
    ensures Store(v, p, [k], x) == v.(blocks := v.blocks[k := x])
  {
  }

  lemma NotBeyond(p: nat, i: nat)
    requires i - DIRECT - p - p * p - p * p * p >= 0
    ensures i >= MaxBlocks(p)
  {
  }

  /** Locate, level by level. */
  lemma LocateIs(p: nat, i: nat)
    requires p > 0
    ensures i < DIRECT ==> Locate(p, i) == [i]
    ensures DIRECT <= i < DIRECT + p ==> Locate(p, i) == [DIRECT] + [i - DIRECT]
    ensures 0 <= i - DIRECT - p < p * p ==>
      Locate(p, i) == [DIRECT + 1] + [(i - DIRECT - p) / p] + [(i - DIRECT - p) % p]
    ensures 0 <= i - DIRECT - p - p * p < p * p * p ==> Locate(p, i) == InTriple(p, i - DIRECT - p - p * p)
    ensures i >= MaxBlocks(p) ==> Locate(p, i) == []
  {
  }

  /** SetLocate, level by level, where it is a place at all. */
  lemma SetLocateIs(p: nat, i: nat)
    requires p > 0 && IsPlace(p, SetLocate(p, i))
    ensures i <= DIRECT ==> SetLocate(p, i) == [i]
    ensures 0 < i - DIRECT <= p ==> i - DIRECT < p && SetLocate(p, i) == [DIRECT] + [i - DIRECT]
    ensures 0 < i - DIRECT - p <= p * p ==> (
      && i - DIRECT - p < p * p
      && SetLocate(p, i) == [DIRECT + 1] + [(i - DIRECT - p) / p] + [(i - DIRECT - p) % p])
    ensures 0 < i - DIRECT - p - p * p ==> (
      && i - DIRECT - p - p * p < p * p * p && SetLocate(p, i) == InTriple(p, i - DIRECT - p - p * p))
  {
    hide InTriple;
    var s, t, q := p * p, p * p * p, SetLocate(p, i);
    assert |q| > 1 ==> q[1] < p;
    if i == DIRECT + p + s {
      LastDouble(p);
    } else if i == DIRECT + p + s + t {
      assert s > 0 && t == p * s;
      DivUnique(t, s, p, 0);
      InTripleIs(p, t, s);
    }
  }

  /** The two digits as the driver computes them. */
  lemma DoubleDigits(p: nat, b: nat, c: int, d: int)
    requires p > 0 && b < p * p && c == b / p && d == b - c * p
    ensures 0 <= c < p && 0 <= d < p && d == b % p
  {
    TwoDigits(p, b);
  }

  /** The three digits as the driver computes them; s stands for p * p and t for e * p * p. */
  lemma TripleDigits(p: nat, s: nat, c: nat, e: int, t: int, f: int, g: int)
    requires p > 0 && s == p * p && c < p * s && s > 0
    requires e == c / s && t == e * s && f == (c - t) / p && g == c - t - f * p
    ensures 0 <= e < p && 0 <= f < p && 0 <= g < p && InTriple(p, c) == [DIRECT + 2] + [e] + [f] + [g]
  {
    hide InTriple;
    FirstDigit(p, s, c, e, t);
    DoubleDigits(p, c - t, f, g);
    InTripleIs(p, c, s);
  }

  lemma FirstDigit(p: nat, s: nat, c: nat, e: int, t: int)
    requires s > 0 && c < p * s && e == c / s && t == e * s
    ensures 0 <= e < p && 0 <= c - t < s && c - t == c % s
  {
    DivMod(c, s);
    DivBelow(c, s, p);
  }

  /** The products that the driver writes out. */
  lemma Products(p: nat, e: int)
    ensures e * p * p == e * (p * p) && p * p * p == p * (p * p) && (p > 0 ==> p * p > 0)
  {
  }

  /** The byte offset of a block on the disk does not wrap around. */
  lemma OffsetFits(disk: seq<byte>, bs: nat, block: nat)
    requires |disk| < WORD_LIMIT && bs > 0
    ensures InDisk(disk, bs, block) ==> bs * block % WORD_LIMIT == block * bs && block * bs + bs <= |disk|
  {
    assert bs * block == block * bs;
  }

  class Inode {
    var size: word
    const blocks: array<word>

    ghost predicate Valid() { blocks.Length == ROOTS }

    constructor ()
      ensures Valid() && fresh(blocks)
    {
      size := 0;
      blocks := new word[ROOTS](_ => 0);
    }
  }

  class FileSystem {
    const device: AtaPio.Device
    const p: nat                                // words of a block: block_size / 4

    ghost predicate Valid() {
      0 < p <= 1024 && device.medium.Length % AtaPio.SECTOR == 0 && device.medium.Length < WORD_LIMIT
    }

    ghost function Vol(inode: Inode): Volume
      reads device.medium, inode.blocks
    {
      Volume(device.medium[..], inode.blocks[..])
    }

    constructor (device: AtaPio.Device, blockSize: nat)
      requires 0 < blockSize <= 4096 && blockSize % 4 == 0
      requires device.medium.Length % AtaPio.SECTOR == 0 && device.medium.Length < WORD_LIMIT
      ensures Valid() && this.device == device && 4 * p == blockSize
    {
      this.device := device;
      p := blockSize / 4;
    }

    /** A block past the end of the device is refused and leaves the buffer as it was. */
    method ReadDiskBlock(block: word, buf: array<byte>)
      requires Valid() && buf.Length == 4 * p && buf != device.medium
      modifies buf
      ensures InDisk(device.medium[..], 4 * p, block) ==> buf[..] == BlockOf(device.medium[..], 4 * p, block)
    {
      var offset := 4 * p * block % WORD_LIMIT;
      OffsetFits(device.medium[..], 4 * p, block);
      if offset + 4 * p <= device.medium.Length {
        ghost var was := buf[..];
        var _ := device.Read(offset, 4 * p, buf);
        assert Patch(was, 0, device.medium[offset..offset + 4 * p]) == device.medium[offset..offset + 4 * p];
      }
    }

    method WriteDiskBlock(block: word, buf: array<byte>)
      requires Valid() && buf.Length == 4 * p && buf != device.medium
      requires InDisk(device.medium[..], 4 * p, block)
      modifies device.medium
      ensures device.medium[..] == SetBlock(old(device.medium[..]), 4 * p, block, buf[..])
    {
      hide BlockOf, InDisk, Patch;
      var offset := 4 * p * block % WORD_LIMIT;
      OffsetFits(device.medium[..], 4 * p, block);
      var _ := device.Write(offset, 4 * p, buf);
      assert buf[..4 * p] == buf[..];
    }

    /** Reads the table named by a place and returns one of its words: the next place's number. */
    method Descend(ghost v: Volume, ghost t: Place, num: word, temp: array<byte>, k: nat) returns (res: word)
      requires Valid() && v.disk == device.medium[..] && |v.blocks| == ROOTS && IsTable(p, t) && k < p
      requires OnDisk(v.disk, p, v.blocks, t) ==> num == Num(v.disk, p, v.blocks, t)
      requires temp.Length == 4 * p && temp != device.medium
      modifies temp
      ensures IsPlace(p, t + [k])
      ensures OnDisk(v.disk, p, v.blocks, t + [k]) ==>
        && OnDisk(v.disk, p, v.blocks, t)
        && res == Num(v.disk, p, v.blocks, t + [k]) && InDisk(v.disk, 4 * p, num)
        && temp[..] == BlockOf(v.disk, 4 * p, num) && res == WordAt(temp[..], k)
    {
      hide BlockOf, WordAt;
      Below(v, p, t, k);
      ReadDiskBlock(num, temp);
      res := WordAt(temp[..], k);
    }

    /** The double level: word b of all the words below table DIRECT + 1. */
    method GetDouble(inode: Inode, ghost v: Volume, temp: array<byte>, b: nat) returns (res: word)
      requires Valid() && inode.Valid() && v == Vol(inode) && b < p * p && temp.Length == 4 * p && temp != device.medium
      modifies temp
      ensures var s := [DIRECT + 1] + [b / p] + [b % p];
        IsPlace(p, s) && (OnDisk(v.disk, p, v.blocks, s) ==> res == Num(v.disk, p, v.blocks, s))
    {
      hide Num, OnDisk;
      var c := b / p;
      var d := b - c * p;
      DoubleDigits(p, b, c, d);
      Root(v, p, DIRECT + 1);
      res := Descend(v, [DIRECT + 1], inode.blocks[DIRECT + 1], temp, c);
      res := Descend(v, [DIRECT + 1] + [c], res, temp, d);
    }

    method GetTriple(inode: Inode, ghost v: Volume, temp: array<byte>, c: nat) returns (res: word)
      requires Valid() && inode.Valid() && v == Vol(inode) && c < p * p * p && temp.Length == 4 * p && temp != device.medium
      modifies temp
      ensures var s := InTriple(p, c);
        IsPlace(p, s) && (OnDisk(v.disk, p, v.blocks, s) ==> res == Num(v.disk, p, v.blocks, s))
    {
      hide Num, OnDisk, InTriple;
      Products(p, c / (p * p));
      var e := c / (p * p);
      var f := (c - e * p * p) / p;
      var g := c - e * p * p - f * p;
      TripleDigits(p, p * p, c, e, e * p * p, f, g);
      Root(v, p, DIRECT + 2);
      res := Descend(v, [DIRECT + 2], inode.blocks[DIRECT + 2], temp, e);
      res := Descend(v, [DIRECT + 2] + [e], res, temp, f);
      res := Descend(v, [DIRECT + 2] + [e] + [f], res, temp, g);
    }

    /** get_DBlock_num: the number in the block map, with block 0 in the place of a table that is missing; anything
        when a table is not on the disk or the file block is past the triple tables. */
    method GetDBlockNum(inode: Inode, iblock: nat) returns (res: word)
      requires Valid() && inode.Valid() && iblock < INT_LIMIT
      ensures iblock < MaxBlocks(p) && Found(Vol(inode), p, iblock) ==> res == DBlock(Vol(inode), p, iblock)
    {
      hide Num, OnDisk, Locate, InTriple, IsPlace, MaxBlocks;
      ghost var v := Vol(inode);
      var temp := new byte[4 * p];
      var a := iblock - DIRECT;
      LocateIs(p, iblock);
      if a < 0 {
        res := inode.blocks[iblock];
        Root(v, p, iblock);
        return;
      }
      var b := a - p;
      if b < 0 {
        Root(v, p, DIRECT);
        res := Descend(v, [DIRECT], inode.blocks[DIRECT], temp, a);
        return;
      }
      var c := b - p * p;
      if c < 0 {
        res := GetDouble(inode, v, temp, b);
        return;
      }
      var d := c - p * p * p;
      if d < 0 {
        res := GetTriple(inode, v, temp, c);
        return;
      }
      NotBeyond(p, iblock);
      res := *;
    }

    method PutWord(temp: array<byte>, k: nat, x: word)
      requires 4 * k + 4 <= temp.Length
      modifies temp
      ensures temp[..] == Patch(old(temp[..]), 4 * k, Encode(x))
    {
      var e := Encode(x);
      temp[4 * k] := e[0];
      temp[4 * k + 1] := e[1];
      temp[4 * k + 2] := e[2];
      temp[4 * k + 3] := e[3];
    }

    /** Sets one word of the table named by a present place. */
    method SetWordOf(inode: Inode, ghost t: Place, num: word, temp: array<byte>, k: nat, x: word)
      requires Valid() && inode.Valid() && IsTable(p, t) && k < p && IsPlace(p, t + [k])
      requires Reached(device.medium[..], p, inode.blocks[..], t + [k])
      requires num == Num(device.medium[..], p, inode.blocks[..], t)
      requires temp.Length == 4 * p && temp != device.medium
      modifies temp, device.medium
      ensures Vol(inode) == Store(old(Vol(inode)), p, t + [k], x)
    {
      hide BlockOf, SetBlock, Num, Reached, Patch;
      ghost var v := Vol(inode);
      Below(v, p, t, k);
      ReadDiskBlock(num, temp);
      PutWord(temp, k, x);
      WriteDiskBlock(num, temp);
    }

    /** set_DBlock_num when the tables on the way are there: one word changes, in inode->blocks or on the disk. */
    method SetDBlockNum(inode: Inode, iblock: nat, dblock: word)
      requires Valid() && inode.Valid() && iblock < INT_LIMIT
      requires IsPlace(p, SetLocate(p, iblock))
      requires Reached(device.medium[..], p, inode.blocks[..], SetLocate(p, iblock))
      modifies device.medium, inode.blocks
      ensures Vol(inode) == Store(old(Vol(inode)), p, SetLocate(p, iblock), dblock)
    {
      hide Num, Reached, OnDisk, InTriple, Store;
      ghost var v := Vol(inode);
      ReachedOnDisk(v.disk, p, v.blocks, SetLocate(p, iblock));
      var temp := new byte[4 * p];
      var a := iblock - DIRECT;
      SetLocateIs(p, iblock);
      if a <= 0 {
        inode.blocks[iblock] := dblock;
        StoreAtRoot(v, p, iblock, dblock);
        return;
      }
      var b := a - p;
      if b <= 0 {
        Root(v, p, DIRECT);
        SetWordOf(inode, [DIRECT], inode.blocks[DIRECT], temp, a, dblock);
        return;
      }
      var c := b - p * p;
      if c <= 0 {
        c := b / p;
        var d := b - c * p;
        DoubleDigits(p, b, c, d);
        Root(v, p, DIRECT + 1);
        Below(v, p, [DIRECT + 1] + [c], d);
        var tmp := Descend(v, [DIRECT + 1], inode.blocks[DIRECT + 1], temp, c);
        SetWordOf(inode, [DIRECT + 1] + [c], tmp, temp, d, dblock);
        return;
      }
      var d := c - p * p * p;
      if d <= 0 {
        Products(p, c / (p * p));
        var e := c / (p * p);
        var f := (c - e * p * p) / p;
        var g := c - e * p * p - f * p;
        TripleDigits(p, p * p, c, e, e * p * p, f, g);
        Root(v, p, DIRECT + 2);
        Below(v, p, [DIRECT + 2] + [e], f);
        Below(v, p, [DIRECT + 2] + [e] + [f], g);
        var tmp := Descend(v, [DIRECT + 2], inode.blocks[DIRECT + 2], temp, e);
        tmp := Descend(v, [DIRECT + 2] + [e], tmp, temp, f);
        SetWordOf(inode, [DIRECT + 2] + [e] + [f], tmp, temp, g, dblock);
        return;
      }
    }

    /** read_inode_block: a fresh buffer holding file block iblock, wherever the file has one. */
    method ReadInodeBlock(inode: Inode, iblock: nat) returns (buf: array<byte>)
      requires Valid() && inode.Valid() && iblock < INT_LIMIT
      ensures fresh(buf) && buf.Length == 4 * p
      ensures Readable(Vol(inode), p, iblock) ==> buf[..] == FileBlock(Vol(inode), p, iblock)
    {
      hide DBlock, BlockOf, InDisk, Found;
      buf := new byte[4 * p];
      var dblock := GetDBlockNum(inode, iblock);
      ReadDiskBlock(dblock, buf);
    }

    /** read_inode_filedata: the buffer gets exactly the bytes of the file from offset to the end of the request
        or of the file, whichever comes first, and none when that end lies in a block before the one of offset. */
    method ReadInodeFiledata(inode: Inode, offset: word, size: word, buf: array<byte>) returns (n: word)
      requires Valid() && inode.Valid() && buf != device.medium
      requires var end := EndOffset(inode.size, offset, size);
        && (offset <= end || offset / (4 * p) != end / (4 * p)) && end - offset <= buf.Length
        && forall i: nat :: offset / (4 * p) <= i && i * (4 * p) < end ==> Readable(Vol(inode), p, i)
      modifies buf
      ensures var end := EndOffset(inode.size, offset, size);
        && n == Sub32(end, offset)
        && buf[..] == if offset <= end then Patch(old(buf[..]), 0, File(Vol(inode), p, inode.size)[offset..end]) else old(buf[..])
      ensures offset + size < WORD_LIMIT && offset <= inode.size ==>
        n == if offset + size <= inode.size then size else inode.size - offset
    {
      hide FileSlice, Readable, Copied, Length, Left, Patch, EndOffset, Sub32;
      var bs := 4 * p;
      EndOf(inode.size, offset, size);
      var endOffset := EndOffset(inode.size, offset, size);
      var startBlock, endBlock, startOff := offset / bs, endOffset / bs, offset % bs;
      var endSize := endOffset - endBlock * bs;
      ghost var v, was := Vol(inode), buf[..];
      BoundsOfRead(bs, offset, endOffset);
      Blocks32(bs, endOffset);
      PatchNothing(was, 0);
      assert FileSlice(v, p, offset, offset) == [];
      var i, curr := startBlock, 0;
      while i <= endBlock
        invariant 0 <= startBlock <= i && 0 <= curr
        invariant if offset <= endOffset then i <= endBlock + 1 && curr == Copied(bs, offset, endOffset, i) <= endOffset - offset
          else endBlock < startBlock && curr == 0
        invariant buf[..] == Patch(was, 0, FileSlice(v, p, offset, offset + curr))
        decreases endBlock + 1 - i
      {
        var left, right := 0, bs - 1;
        var block := ReadInodeBlock(inode, i);
        if i == startBlock {
          left := startOff;
        }
        if i == endBlock {
          right := Sub32(endSize, 1);
        }
        var length := Sub32(right + 1, left);
        PieceIs(bs, offset, endOffset, i, left, right, length);
        Pass(bs, offset, endOffset, i);
        ReadPass(v, p, was, offset, curr, i, block[..], left, length);
        Memcpy(buf, curr, block, left, length);
        curr := curr + length;
        i := i + 1;
      }
      if offset <= endOffset { SliceOfFile(v, p, offset, endOffset, inode.size); }
      n := Sub32(endOffset, offset);
    }
  }
}
