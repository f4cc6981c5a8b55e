/** Byte reads and writes over a device that only moves whole sectors (src/drivers/storage/ata_pio.c). */
module AtaPio {
  import opened Bytes

  const SECTOR := 512

  /** The sector of the last byte, in 32-bit arithmetic. */
  function EndSector(offset: nat, size: nat): nat { (offset + size + WORD_LIMIT - 1) % WORD_LIMIT / SECTOR }

  function EndOffset(offset: nat, size: nat): nat { (offset + size + WORD_LIMIT - 1) % WORD_LIMIT % SECTOR }

  /** The loop bounds fit the range exactly unless both offset and size are 0: then the end wraps around. */
  lemma BoundsFit(offset: nat, size: nat)
    requires offset + size < WORD_LIMIT
    ensures offset + size > 0 <==> EndSector(offset, size) * SECTOR + EndOffset(offset, size) + 1 == offset + size
    ensures offset + size == 0 ==> EndSector(offset, size) == WORD_LIMIT / SECTOR - 1
  {
  }

  /** How many bytes of the range lie below sector `counter`. */
  function Covered(offset: nat, size: nat, counter: nat): int {
    if counter * SECTOR <= offset then 0
    else if counter * SECTOR <= offset + size then counter * SECTOR - offset
    else size
  }

  /** The part of the range in one sector, as the loop bodies cut it out. */
  lemma Advance(offset: nat, size: nat, counter: nat, off: int, n: int)
    requires 0 < offset + size < WORD_LIMIT && offset / SECTOR <= counter <= EndSector(offset, size)
    requires off == if counter == offset / SECTOR then offset % SECTOR else 0
    requires n == if counter == EndSector(offset, size) then EndOffset(offset, size) - off + 1 else SECTOR - off
    ensures var total := Covered(offset, size, counter);
      && counter * SECTOR + off == offset + total && 0 <= off && 0 <= n && off + n <= SECTOR
      && Covered(offset, size, counter + 1) == total + n && 0 <= total && total + n <= size
    ensures (counter + 1) * SECTOR <= offset + size + SECTOR - 1
  {
    BoundsFit(offset, size);
  }

  lemma CoveredEnds(offset: nat, size: nat)
    requires 0 < offset + size < WORD_LIMIT
    ensures Covered(offset, size, offset / SECTOR) == 0
    ensures offset / SECTOR <= EndSector(offset, size) + 1
    ensures forall k: nat :: k > EndSector(offset, size) && k <= EndSector(offset, size) + 1 ==> Covered(offset, size, k) == size
    ensures size == 0 && offset / SECTOR > EndSector(offset, size) ==> Covered(offset, size, offset / SECTOR) == size
  {
    BoundsFit(offset, size);
  }

  lemma WholeSector(length: nat, top: nat, counter: nat, offset: nat, size: nat)
    requires 0 < top == offset + size <= length && top < WORD_LIMIT && length % SECTOR == 0 && counter <= EndSector(offset, size)
    ensures (counter + 1) * SECTOR <= length
  {
    BoundsFit(offset, size);
    var n := length / SECTOR;
    assert length == n * SECTOR;
  }

  lemma WriteStep(was: seq<byte>, now: seq<byte>, data: seq<byte>, offset: nat, total: nat, n: nat, lo: nat, off: nat)
    requires offset + total + n <= |was| && total + n <= |data| && now == Patch(was, offset, data[..total])
    requires lo + SECTOR <= |was| && lo + off == offset + total && off + n <= SECTOR
    ensures Patch(now, lo, Patch(now[lo..lo + SECTOR], off, data[total..total + n])) == Patch(was, offset, data[..total + n])
  {
    hide Patch;
    PatchNested(now, lo, lo + SECTOR, off, data[total..total + n]);
    PatchTwice(was, offset, data[..total], data[total..total + n]);
    assert data[..total + n] == data[..total] + data[total..total + n];
  }

  lemma ReadStep(was: seq<byte>, disk: seq<byte>, sector: seq<byte>, offset: nat, total: nat, n: nat, lo: nat, off: nat)
    requires offset + total + n <= |disk| && total + n <= |was|
    requires lo + SECTOR <= |disk| && lo + off == offset + total && off + n <= SECTOR && sector == disk[lo..lo + SECTOR]
    ensures Patch(Patch(was, 0, disk[offset..offset + total]), total, sector[off..off + n])
         == Patch(was, 0, disk[offset..offset + total + n])
  {
    hide Patch;
    SliceOfSlice(disk, lo, lo + SECTOR, off, off + n);
    assert sector[off..off + n] == disk[offset + total..offset + total + n];
    PatchTwice(was, 0, disk[offset..offset + total], disk[offset + total..offset + total + n]);
    assert disk[offset..offset + total + n] == disk[offset..offset + total] + disk[offset + total..offset + total + n];
  }

  class Device {
    const medium: array<byte>

    constructor (sectors: nat)
      ensures medium.Length == sectors * SECTOR && fresh(medium)
    {
      medium := new byte[sectors * SECTOR](_ => 0);
    }

    /** Hardware step: one sector comes in. */
    method ReadSector(lba: nat) returns (ret: array<byte>)
      requires (lba + 1) * SECTOR <= medium.Length
      ensures fresh(ret) && ret.Length == 512 && ret[..] == medium[lba * 512..(lba + 1) * 512]
    {
      ret := new byte[SECTOR](i requires 0 <= i < SECTOR reads medium => medium[lba * SECTOR + i]);
    }

    /** Hardware step: one sector goes out. */
    method WriteSector(lba: nat, buffer: array<byte>)
      requires (lba + 1) * SECTOR <= medium.Length && buffer.Length == SECTOR && buffer != medium
      modifies medium
      ensures medium[..] == Patch(old(medium[..]), lba * 512, buffer[..])
    {
      Memcpy(medium, lba * SECTOR, buffer, 0, SECTOR);
      assert buffer[0..SECTOR] == buffer[..];
    }
  
    /** Replaces exactly the bytes [offset, offset + size) of the device. */
    method Write(offset: nat, size: nat, buffer: array<byte>) returns (total: nat)
      requires 0 < offset + size < WORD_LIMIT && offset + size <= medium.Length && medium.Length % SECTOR == 0
      requires size <= buffer.Length && buffer != medium
      modifies medium
      ensures medium[..] == Patch(old(medium[..]), offset, buffer[..size])
      ensures total == size
    {
      hide EndSector, EndOffset, Covered, Patch;
      CoveredEnds(offset, size);
      var start, startOffset := offset / SECTOR, offset % SECTOR;
      var end, endOffset := EndSector(offset, size), EndOffset(offset, size);
      var counter := start;
      total := 0;
      ghost var was := medium[..];
      PatchNothing(was, offset);
      while counter <= end
        invariant start <= counter <= end + 1 && total <= size && medium[..] == Patch(was, offset, buffer[..total])
        invariant total == Covered(offset, size, counter)
        decreases end + 1 - counter
      {
        WholeSector(medium.Length, offset + size, counter, offset, size);
        var off, writeSize := 0, SECTOR;
        var ret := ReadSector(counter);
        if counter == start {
          off := startOffset;
          writeSize := SECTOR - off;
        }
        if counter == end {
          writeSize := endOffset - off + 1;
        }
        Advance(offset, size, counter, off, writeSize);
        Memcpy(ret, off, buffer, total, writeSize);
        WriteStep(was, medium[..], buffer[..], offset, total, writeSize, counter * SECTOR, off);
        WriteSector(counter, ret);
        total := total + writeSize;
        counter := counter + 1;
      }
    }

    /** Fills the buffer with exactly the bytes [offset, offset + size) of the device. */
    method Read(offset: nat, size: nat, buffer: array<byte>) returns (total: nat)
      requires 0 < offset + size < WORD_LIMIT && offset + size <= medium.Length && medium.Length % SECTOR == 0
      requires size <= buffer.Length && buffer != medium
      modifies buffer
      ensures buffer[..] == Patch(old(buffer[..]), 0, medium[offset..offset + size])
      ensures total == size
    {
      hide EndSector, EndOffset, Covered, Patch;
      CoveredEnds(offset, size);
      var start, startOffset := offset / SECTOR, offset % SECTOR;
      var end, endOffset := EndSector(offset, size), EndOffset(offset, size);
      var counter := start;
      total := 0;
      ghost var was, disk := buffer[..], medium[..];
      PatchNothing(was, 0);
      assert disk[offset..offset] == [];
      while counter <= end
        invariant start <= counter <= end + 1 && total <= size && buffer[..] == Patch(was, 0, disk[offset..offset + total])
        invariant total == Covered(offset, size, counter)
        decreases end + 1 - counter
      {
        WholeSector(medium.Length, offset + size, counter, offset, size);
        var off, readSize := 0, SECTOR;
        var ret := ReadSector(counter);
        if counter == start {
          off := startOffset;
          readSize := SECTOR - off;
        }
        if counter == end {
          readSize := endOffset - off + 1;
        }
        Advance(offset, size, counter, off, readSize);
        Memcpy(buffer, total, ret, off, readSize);
        ReadStep(was, disk, ret[..], offset, total, readSize, counter * SECTOR, off);
        total := total + readSize;
        counter := counter + 1;
      }
      assert disk[offset..offset + total] == medium[offset..offset + size];
    }
  }
}
