/** SORFS images: the builder (src/tools/mksorfs/mksorfs.cpp:81-137) and the driver that reads them
    (src/fs/sorfs.c:24-43, 55-105, 134-148). */
module Sorfs {
  import opened Bytes
  import AtaPio
  import opened Options

  const MAX_BLOCKS := 10
  const SUPERBLOCK := 48                        // sizeof(sorfs_superblock_t)
  const BLOCK := 45                             // sizeof(sorfs_block_t)
  const NAME := 32
  const SB_MAGIC := 0xE0_9BAA
  const BLOCK_MAGIC := 0xE0_9CFF
  const TYPE_REG := 0
  const TYPE_FREE := 3
  const CONTENTS := SUPERBLOCK + MAX_BLOCKS * BLOCK

  type bytes = seq<byte>

  datatype Entry = Entry(name: bytes, kind: byte, size: nat, offset: nat)

  datatype Source = Source(name: bytes, content: bytes)

  // ---- Records ------------------------------------------------------------------------------------

  predicate ShortName(n: bytes) { |n| < NAME && 0 !in n }

  /** strcpy into a cleared array. */
  function Field(n: bytes): (r: bytes)
    requires ShortName(n)
    ensures |r| == NAME
  {
    n + seq<byte>(NAME - |n|, _ => 0)
  }

  /** A character array read as a string. */
  function CString(f: bytes): bytes { if f == [] || f[0] == 0 then [] else [f[0]] + CString(f[1..]) }

  lemma {:induction false} CStringOf(n: bytes, rest: bytes)
    requires 0 !in n && (rest == [] || rest[0] == 0)
    ensures CString(n + rest) == n
  {
    if n != [] {
      assert (n + rest)[1..] == n[1..] + rest;
      CStringOf(n[1..], rest);
    } else {
      assert n + rest == rest;
    }
  }

  predicate Fits(e: Entry) { ShortName(e.name) && e.size < WORD_LIMIT && e.offset < WORD_LIMIT }

  function Packed(e: Entry): (r: bytes)
    requires Fits(e)
    ensures |r| == BLOCK
  {
    Encode(BLOCK_MAGIC) + Field(e.name) + [e.kind] + Encode(e.size) + Encode(e.offset)
  }

  function Unpacked(b: bytes): Entry
    requires |b| == BLOCK
  {
    Entry(CString(b[4..36]), b[36], WordAt(b[37..41], 0), WordAt(b[41..45], 0))
  }

  lemma UnpackedPacked(e: Entry)
    requires Fits(e)
    ensures Unpacked(Packed(e)) == e
  {
    hide Encode, WordAt, CString;
    var b := Packed(e);
    assert b[4..36] == Field(e.name);
    assert b[37..41] == Encode(e.size) && b[41..45] == Encode(e.offset);
    CStringOf(e.name, seq<byte>(NAME - |e.name|, _ => 0));
  }

  /** sorfs_block_t (src/Include/sorfs.h:54-61): a magic number, the name, the kind, the size, and the offset. */
  lemma PackedFields(e: Entry)
    requires Fits(e)
    ensures var b := Packed(e);
      && LittleEndian(b, 0, 4) == 0xE0_9CFF && CString(b[4..36]) == e.name && b[36] == e.kind
      && LittleEndian(b, 37, 4) == e.size && LittleEndian(b, 41, 4) == e.offset
  {
    hide Encode, CString, LittleEndian;
    var b := Packed(e);
    assert b[4..36] == Field(e.name);
    CStringOf(e.name, seq<byte>(NAME - |e.name|, _ => 0));
    Here(b, 0, Encode(BLOCK_MAGIC));
    Here(b, 37, Encode(e.size));
    Here(b, 41, Encode(e.offset));
    EncodeIs(BLOCK_MAGIC);
    EncodeIs(e.size);
    EncodeIs(e.offset);
  }

  /** A number reads the same wherever its bytes lie. */
  lemma Here(b: bytes, at: nat, w: bytes)
    requires at + 4 <= |b| && |w| == 4 && b[at..at + 4] == w
    ensures LittleEndian(b, at, 4) == LittleEndian(w, 0, 4)
  {
    FourBytes(b, at);
    FourBytes(w, 0);
    var c := b[at..at + 4];
    assert c[0] == b[at] && c[1] == b[at + 1] && c[2] == b[at + 2] && c[3] == b[at + 3];
  }

  function Rows(es: seq<Entry>): (r: bytes)
    requires forall e :: e in es ==> Fits(e)
    ensures |r| == BLOCK * |es|
  {
    if es == [] then [] else Rows(es[..|es| - 1]) + Packed(es[|es| - 1])
  }

  lemma {:induction false} RowAt(es: seq<Entry>, i: nat)
    requires (forall e :: e in es ==> Fits(e)) && i < |es|
    ensures Rows(es)[BLOCK * i..BLOCK * i + BLOCK] == Packed(es[i])
  {
    hide Packed, Fits;
    var n := |es| - 1;
    if i < n {
      RowAt(es[..n], i);
      assert Rows(es)[BLOCK * i..BLOCK * i + BLOCK] == Rows(es[..n])[BLOCK * i..BLOCK * i + BLOCK];
    }
  }

  // ---- The image ----------------------------------------------------------------------------------

  function Contents(fs: seq<Source>): bytes { if fs == [] then [] else Contents(fs[..|fs| - 1]) + fs[|fs| - 1].content }

  function Offset(fs: seq<Source>, i: nat): nat
    requires i <= |fs|
  {
    CONTENTS + |Contents(fs[..i])|
  }

  /** The i-th record of the table. */
  function EntryOf(fs: seq<Source>, i: nat): Entry {
    if i < |fs| then Entry(fs[i].name, TYPE_REG, |fs[i].content|, Offset(fs, i)) else Entry([], TYPE_FREE, 0, 0)
  }

  function Table(fs: seq<Source>): (r: seq<Entry>)
    ensures |r| == MAX_BLOCKS
  {
    seq(MAX_BLOCKS, i requires 0 <= i < MAX_BLOCKS => EntryOf(fs, i))
  }

  predicate Buildable(fs: seq<Source>) {
    && |fs| <= MAX_BLOCKS && CONTENTS + |Contents(fs)| < WORD_LIMIT
    && forall f :: f in fs ==> ShortName(f.name)
  }

  lemma {:induction false} ContentsSplit(fs: seq<Source>, i: nat)
    requires i < |fs|
    ensures |Contents(fs[..i])| + |fs[i].content| == |Contents(fs[..i + 1])| <= |Contents(fs)|
    ensures Contents(fs)[|Contents(fs[..i])|..|Contents(fs[..i])| + |fs[i].content|] == fs[i].content
    decreases |fs|
  {
    var n := |fs| - 1;
    assert fs[..i + 1][..i] == fs[..i];
    if i < n {
      ContentsSplit(fs[..n], i);
      assert fs[..n][..i] == fs[..i] && fs[..n][..i + 1] == fs[..i + 1];
    } else {
      assert fs[..n + 1] == fs;
    }
  }

  lemma {:induction false} ContentsJoin(a: seq<Source>, b: seq<Source>)
    ensures Contents(a + b) == Contents(a) + Contents(b)
    decreases |b|
  {
    hide Contents;
    if b == [] {
      NoContents();
      assert a + b == a;
    } else {
      var n := |b| - 1;
      ContentsJoin(a, b[..n]);
      ContentsLast(a + b[..n], b[n]);
      ContentsLast(b[..n], b[n]);
      assert a + b == (a + b[..n]) + [b[n]] && b == b[..n] + [b[n]];
    }
  }

  lemma NoContents()
    ensures Contents([]) == []
  {
  }

  lemma ContentsLast(a: seq<Source>, f: Source)
    ensures Contents(a + [f]) == Contents(a) + f.content
  {
    assert (a + [f])[..|a|] == a;
  }

  /** Behind the contents of a file come those of the files after it. */
  lemma ContentsFrom(fs: seq<Source>, i: nat)
    requires i < |fs|
    ensures Contents(fs) == Contents(fs[..i]) + Contents(fs[i..])
    ensures Contents(fs[i..]) == fs[i].content + Contents(fs[i + 1..])
  {
    hide Contents;
    ContentsJoin(fs[..i], fs[i..]);
    assert fs[..i] + fs[i..] == fs;
    ContentsJoin([fs[i]], fs[i + 1..]);
    assert [fs[i]] + fs[i + 1..] == fs[i..];
    ContentsOfOne(fs[i]);
  }

  lemma ContentsOfOne(f: Source)
    ensures Contents([f]) == f.content
  {
    assert [f][..0] == [];
  }

  /** Extents follow each other without gap or overlap, and none reaches past the end of the image. */
  lemma ExtentsInOrder(fs: seq<Source>, i: nat, j: nat)
    requires i < j <= |fs|
    ensures CONTENTS <= Offset(fs, i) && Offset(fs, i) + |fs[i].content| <= Offset(fs, j) <= CONTENTS + |Contents(fs)|
    ensures j == i + 1 ==> Offset(fs, i) + |fs[i].content| == Offset(fs, j)
    decreases j
  {
    ContentsSplit(fs, i);
    if j > i + 1 {
      ExtentsInOrder(fs, i, j - 1);
      ContentsSplit(fs, j - 1);
    } else if j == |fs| {
      assert fs[..j] == fs;
    } else {
      ContentsSplit(fs, j);
    }
  }

  lemma TableFits(fs: seq<Source>)
    requires Buildable(fs)
    ensures forall e :: e in Table(fs) ==> Fits(e)
  {
    forall i | 0 <= i < MAX_BLOCKS
      ensures Fits(EntryOf(fs, i))
    {
      if i < |fs| {
        ExtentsInOrder(fs, i, i + 1);
        assert fs[i] in fs;
      }
    }
  }

  /** The image: superblock, table, contents. The bytes of the superblock after the name are whatever was there. */
  ghost predicate IsImage(image: bytes, fs: seq<Source>)
    requires Buildable(fs)
  {
    TableFits(fs);
    && |image| == CONTENTS + |Contents(fs)|
    && WordAt(image[0..4], 0) == SB_MAGIC
    && WordAt(image[40..44], 0) == MAX_BLOCKS && WordAt(image[44..48], 0) == MAX_BLOCKS - |fs|
    && image[SUPERBLOCK..CONTENTS] == Rows(Table(fs))
    && image[CONTENTS..] == Contents(fs)
  }

  /** Record i of an image: for a file its name, its size, and where its contents begin; the others are marked free. */
  lemma RecordIs(image: bytes, fs: seq<Source>, i: nat)
    requires Buildable(fs) && IsImage(image, fs) && i < 10
    ensures |image| >= 498
    ensures var b := image[48 + 45 * i..48 + 45 * i + 45];
      && LittleEndian(b, 0, 4) == 0xE0_9CFF
      && if i < |fs| then
           && CString(b[4..36]) == fs[i].name && b[36] == 0 && LittleEndian(b, 37, 4) == |fs[i].content|
           && LittleEndian(b, 41, 4) == 498 + |Contents(fs[..i])|
         else b[36] == 3 && LittleEndian(b, 37, 4) == 0
  {
    hide Packed, Rows, Fits, Contents, LittleEndian, CString;
    TableFits(fs);
    assert Table(fs)[i] in Table(fs) && Table(fs)[i] == EntryOf(fs, i);
    RowAt(Table(fs), i);
    SliceOfSlice(image, SUPERBLOCK, CONTENTS, BLOCK * i, BLOCK * i + BLOCK);
    PackedFields(EntryOf(fs, i));
  }

  // ---- The builder --------------------------------------------------------------------------------

  /** The name field of the superblock: strcpy into memory that holds junk. */
  function NameOver(name: bytes, junk: bytes): (r: bytes)
    requires ShortName(name) && |junk| == NAME
    ensures |r| == NAME && CString(r) == name
  {
    CStringOf(name, [0] + junk[|name| + 1..]);
    name + ([0] + junk[|name| + 1..])
  }

  /** main of mksorfs, for at most ten readable files; `junk` is what the superblock holds before its fields are set. */
  method Build(output: bytes, fs: seq<Source>, junk: bytes) returns (out: bytes)
    requires Buildable(fs) && |junk| == NAME && ShortName(output)
    ensures IsImage(out, fs)
    ensures LittleEndian(out, 0, 4) == 0xE0_9BAA && CString(out[4..36]) == output && LittleEndian(out, 36, 4) == 48
    ensures LittleEndian(out, 40, 4) == 10 && LittleEndian(out, 44, 4) == 10 - |fs|
  {
    hide Encode, WordAt, Rows, Packed, Fits, LittleEndian, CString;
    var n := |fs|;
    out := Encode(SB_MAGIC) + NameOver(output, junk) + Encode(SUPERBLOCK) + Encode(MAX_BLOCKS)
           + Encode(MAX_BLOCKS - n);
    ghost var sb := out;
    assert sb[0..4] == Encode(SB_MAGIC) && sb[40..44] == Encode(MAX_BLOCKS);
    assert sb[4..36] == NameOver(output, junk) && sb[36..40] == Encode(SUPERBLOCK);
    assert sb[44..48] == Encode(MAX_BLOCKS - n);
    var blocks := FillTable(fs);
    TableFits(fs);
    out := out + Rows(blocks[..]);
    ghost var head := out;
    var i := 0;
    while i < n
      invariant 0 <= i <= n && out == head + Contents(fs[..i])
    {
      assert fs[..i + 1][..i] == fs[..i];
      out := out + fs[i].content;
      i := i + 1;
    }
    assert fs[..n] == fs;
    assert out[0..4] == sb[0..4] && out[40..44] == sb[40..44] && out[44..48] == sb[44..48];
    assert out[4..36] == sb[4..36] && out[36..40] == sb[36..40];
    Numbers(out, n);
  }

  lemma Numbers(out: bytes, n: nat)
    requires n <= MAX_BLOCKS && |out| >= SUPERBLOCK && out[0..4] == Encode(SB_MAGIC) && out[36..40] == Encode(SUPERBLOCK)
    requires out[40..44] == Encode(MAX_BLOCKS) && out[44..48] == Encode(MAX_BLOCKS - n)
    ensures LittleEndian(out, 0, 4) == 0xE0_9BAA && LittleEndian(out, 36, 4) == 48
    ensures LittleEndian(out, 40, 4) == 10 && LittleEndian(out, 44, 4) == 10 - n
  {
    hide Encode, LittleEndian;
    Here(out, 0, Encode(SB_MAGIC));
    Here(out, 36, Encode(SUPERBLOCK));
    Here(out, 40, Encode(MAX_BLOCKS));
    Here(out, 44, Encode(MAX_BLOCKS - n));
    EncodeIs(SB_MAGIC);
    EncodeIs(SUPERBLOCK);
    EncodeIs(MAX_BLOCKS);
    EncodeIs(MAX_BLOCKS - n);
  }

  /** The two loops over c_blocks. */
  method FillTable(fs: seq<Source>) returns (blocks: array<Entry>)
    requires Buildable(fs)
    ensures blocks[..] == Table(fs)
  {
    blocks := new Entry[MAX_BLOCKS](_ => Entry([], 0, 0, 0));
    var n := |fs|;
    var offset := CONTENTS;
    var i := 0;
    while i < n
      invariant 0 <= i <= n && offset == Offset(fs, i) && blocks.Length == MAX_BLOCKS
      invariant forall k :: 0 <= k < i ==> blocks[k] == EntryOf(fs, k)
    {
      blocks[i] := Entry(fs[i].name, TYPE_REG, |fs[i].content|, offset);
      ExtentsInOrder(fs, i, i + 1);
      offset := offset + |fs[i].content|;
      i := i + 1;
    }
    while i < MAX_BLOCKS
      invariant n <= i <= MAX_BLOCKS && blocks.Length == MAX_BLOCKS
      invariant forall k :: 0 <= k < i ==> blocks[k] == EntryOf(fs, k)
    {
      blocks[i] := Entry([], TYPE_FREE, 0, 0);
      i := i + 1;
    }
  }

  // ---- The driver ---------------------------------------------------------------------------------

  /** The device begins with the image. */
  ghost predicate Holds(disk: bytes, fs: seq<Source>)
    requires Buildable(fs)
  {
    |disk| >= CONTENTS + |Contents(fs)| && IsImage(disk[..CONTENTS + |Contents(fs)|], fs)
  }

  lemma RecordOnDisk(disk: bytes, fs: seq<Source>, n: nat)
    requires Buildable(fs) && Holds(disk, fs) && n < MAX_BLOCKS
    ensures Fits(EntryOf(fs, n)) && SUPERBLOCK + n * BLOCK + BLOCK <= |disk|
    ensures Unpacked(disk[SUPERBLOCK + n * BLOCK..SUPERBLOCK + n * BLOCK + BLOCK]) == EntryOf(fs, n)
  {
    hide Packed, Unpacked, Rows, Fits, EntryOf, Contents;
    TableFits(fs);
    assert Table(fs)[n] in Table(fs) && Table(fs)[n] == EntryOf(fs, n);
    RowAt(Table(fs), n);
    var image := disk[..CONTENTS + |Contents(fs)|];
    SliceOfSlice(disk, 0, |image|, SUPERBLOCK, CONTENTS);
    SliceOfSlice(disk, SUPERBLOCK, CONTENTS, BLOCK * n, BLOCK * n + BLOCK);
    UnpackedPacked(EntryOf(fs, n));
  }

  /** From a record's offset on, the disk holds the contents of its file and then those of the files behind it. */
  lemma ContentOnDisk(disk: bytes, fs: seq<Source>, i: nat, lo: nat, hi: nat)
    requires Buildable(fs) && Holds(disk, fs) && i < |fs| && lo <= hi <= |Contents(fs[i..])|
    ensures Offset(fs, i) + hi <= |disk|
    ensures disk[Offset(fs, i) + lo..Offset(fs, i) + hi] == Contents(fs[i..])[lo..hi]
    ensures |Contents(fs[i..])| >= |fs[i].content| && (hi <= |fs[i].content| ==> Contents(fs[i..])[lo..hi] == fs[i].content[lo..hi])
  {
    hide Rows, Table, Contents;
    ContentsFrom(fs, i);
    var all, x := Contents(fs), |Contents(fs[..i])|;
    assert disk[CONTENTS..CONTENTS + |all|] == all by { ImageEnds(disk, fs); }
    SliceOfSlice(disk, CONTENTS, CONTENTS + |all|, x, |all|);
    assert all[x..|all|] == Contents(fs[i..]);
    SliceOfSlice(disk, CONTENTS + x, CONTENTS + |all|, lo, hi);
  }

  lemma ImageEnds(disk: bytes, fs: seq<Source>)
    requires Buildable(fs) && Holds(disk, fs)
    ensures disk[CONTENTS..CONTENTS + |Contents(fs)|] == Contents(fs)
  {
    hide Rows, Table, Contents;
    var image := disk[..CONTENTS + |Contents(fs)|];
    assert image[CONTENTS..] == disk[CONTENTS..CONTENTS + |Contents(fs)|];
  }

  /** A FILE of the driver: the number of its record and its size. */
  datatype Handle = Handle(name: bytes, inode: nat, size: nat)

  class Driver {
    const device: AtaPio.Device
    var totalBlocks: nat
    var freeBlocks: nat

    ghost predicate Valid(fs: seq<Source>)
      reads this, device.medium
    {
      && Buildable(fs) && Holds(device.medium[..], fs)
      && device.medium.Length % AtaPio.SECTOR == 0 && device.medium.Length < WORD_LIMIT
      && totalBlocks == MAX_BLOCKS && freeBlocks == MAX_BLOCKS - |fs|
    }

    /** init_sorfs on a device that holds an image. */
    constructor (device: AtaPio.Device, ghost fs: seq<Source>)
      requires Buildable(fs) && Holds(device.medium[..], fs)
      requires device.medium.Length % AtaPio.SECTOR == 0 && device.medium.Length < WORD_LIMIT
      ensures Valid(fs) && this.device == device
    {
      this.device := device;
      totalBlocks, freeBlocks := 0, 0;
      new;
      var sb := new byte[SUPERBLOCK];
      ghost var was, disk := sb[..], device.medium[..];
      var _ := device.Read(0, SUPERBLOCK, sb);
      PatchAll(was, disk[0..SUPERBLOCK]);
      SuperOnDisk(disk, fs);
      totalBlocks := WordAt(sb[40..44], 0);
      freeBlocks := WordAt(sb[44..48], 0);
    }

    method ReadBlock(n: nat, ghost fs: seq<Source>) returns (e: Entry)
      requires Valid(fs) && n < MAX_BLOCKS
      ensures e == EntryOf(fs, n)
    {
      hide Unpacked, EntryOf, IsImage;
      RecordOnDisk(device.medium[..], fs, n);
      var buf := new byte[BLOCK];
      ghost var was, disk := buf[..], device.medium[..];
      var _ := device.Read(SUPERBLOCK + n * BLOCK, BLOCK, buf);
      PatchAll(was, disk[SUPERBLOCK + n * BLOCK..SUPERBLOCK + n * BLOCK + BLOCK]);
      e := Unpacked(buf[..]);
    }

    method BlockToNode(n: nat, ghost fs: seq<Source>) returns (node: Option<Handle>)
      requires Valid(fs) && n < MAX_BLOCKS
      ensures node == if n < |fs| then Some(Handle(fs[n].name, n, |fs[n].content|)) else None
    {
      if n >= totalBlocks {
        return None;
      }
      var e := ReadBlock(n, fs);
      if e.kind == TYPE_FREE {
        return None;
      }
      node := Some(Handle(e.name, n, e.size));
    }

    /** sorfs_finddir on the root: the first file of that name. A name that is not there gives no promise, because
        the function then ends without a return statement. */
    method FindDir(name: bytes, ghost fs: seq<Source>) returns (node: Option<Handle>)
      requires Valid(fs)
      ensures forall i :: 0 <= i < |fs| && fs[i].name == name && (forall k :: 0 <= k < i ==> fs[k].name != name) ==>
        node == Some(Handle(name, i, |fs[i].content|))
    {
      hide IsImage;
      var i := 0;
      while i < totalBlocks - freeBlocks
        invariant 0 <= i <= |fs| && forall k :: 0 <= k < i ==> fs[k].name != name
      {
        var f := BlockToNode(i, fs);
        if f.Some? && f.value.name == name {
          return f;
        }
        i := i + 1;
      }
      node := *;
    }

    /** sorfs_read of a node that finddir gave. The size of the file is not looked at: a read past its end goes on into the
        files behind it, and past the last one into whatever the device holds. */
    method Read(node: Handle, offset: nat, size: nat, buffer: array<byte>, ghost fs: seq<Source>) returns (n: nat)
      requires Valid(fs) && node.inode < |fs| && Offset(fs, node.inode) + offset + size <= device.medium.Length
      requires size <= buffer.Length && buffer != device.medium
      modifies buffer
      ensures n == size
      ensures var at := Offset(fs, node.inode) + offset; buffer[..] == Patch(old(buffer[..]), 0, device.medium[at..at + size])
      ensures offset + size <= |Contents(fs[node.inode..])| ==>
        buffer[..] == Patch(old(buffer[..]), 0, Contents(fs[node.inode..])[offset..offset + size])
      ensures offset + size <= |fs[node.inode].content| ==>
        buffer[..] == Patch(old(buffer[..]), 0, fs[node.inode].content[offset..offset + size])
    {
      hide Patch, IsImage, Contents;
      ContentsFrom(fs, node.inode);
      if offset + size <= |Contents(fs[node.inode..])| {
        ContentOnDisk(device.medium[..], fs, node.inode, offset, offset + size);
      }
      var e := ReadBlock(node.inode, fs);
      ghost var disk := device.medium[..];
      var _ := device.Read(e.offset + offset, size, buffer);
      assert disk[e.offset + offset..e.offset + offset + size] == device.medium[e.offset + offset..e.offset + offset + size];
      n := size;
    }
  }

  lemma SuperOnDisk(disk: bytes, fs: seq<Source>)
    requires Buildable(fs) && Holds(disk, fs)
    ensures |disk| >= CONTENTS && WordAt(disk[0..SUPERBLOCK][40..44], 0) == MAX_BLOCKS
    ensures WordAt(disk[0..SUPERBLOCK][44..48], 0) == MAX_BLOCKS - |fs|
  {
    hide WordAt, Rows;
    var image := disk[..CONTENTS + |Contents(fs)|];
    assert disk[0..SUPERBLOCK][40..44] == image[40..44] && disk[0..SUPERBLOCK][44..48] == image[44..48];
  }
}
