/** Byte buffers: the copy loop (src/common/string.c:41-54), replacing part of a sequence, and 32-bit words. */
module Bytes {

  const WORD_LIMIT := 0x1_0000_0000
  const INT_LIMIT := 0x8000_0000                // first value an int cannot hold

  type byte = x: int | 0 <= x < 256

  type word = x: int | 0 <= x < WORD_LIMIT

  /** s with `data` in the place of the bytes from `at` on. */
  function Patch(s: seq<byte>, at: nat, data: seq<byte>): (r: seq<byte>)
    requires at + |data| <= |s|
    ensures |r| == |s|
    ensures forall i :: 0 <= i < |s| ==> r[i] == if at <= i < at + |data| then data[i - at] else s[i]
  {
    s[..at] + data + s[at + |data|..]
  }

  lemma PatchSlice(s: seq<byte>, at: nat, data: seq<byte>, lo: nat, hi: nat)
    requires at + |data| <= |s| && lo <= hi <= |s| && (hi <= at || at + |data| <= lo)
    ensures Patch(s, at, data)[lo..hi] == s[lo..hi]
  {
  }

  lemma PatchInside(s: seq<byte>, at: nat, data: seq<byte>)
    requires at + |data| <= |s|
    ensures Patch(s, at, data)[at..at + |data|] == data
  {
  }

  /** Two patches side by side are one. */
  lemma PatchTwice(s: seq<byte>, at: nat, a: seq<byte>, b: seq<byte>)
    requires at + |a| + |b| <= |s|
    ensures Patch(Patch(s, at, a), at + |a|, b) == Patch(s, at, a + b)
  {
  }

  lemma PatchNested(s: seq<byte>, lo: nat, hi: nat, at: nat, data: seq<byte>)
    requires lo <= hi <= |s| && at + |data| <= hi - lo
    ensures Patch(s, lo, Patch(s[lo..hi], at, data)) == Patch(s, lo + at, data)
  {
  }

  lemma SliceOfSlice(s: seq<byte>, a: nat, b: nat, c: nat, d: nat)
    requires a <= b <= |s| && c <= d <= b - a
    ensures s[a..b][c..d] == s[a + c..a + d]
  {
    forall k | 0 <= k < d - c
      ensures s[a..b][c..d][k] == s[a + c..a + d][k]
    {
      assert s[a..b][c + k] == s[a + c + k];
    }
  }

  lemma PatchOver(s: seq<byte>, at: nat, a: seq<byte>, b: seq<byte>)
    requires at + |a| <= |s| && |a| == |b|
    ensures Patch(Patch(s, at, a), at, b) == Patch(s, at, b)
  {
  }

  lemma PatchAll(s: seq<byte>, b: seq<byte>)
    requires |s| == |b|
    ensures Patch(s, 0, b) == b
  {
  }

  lemma PatchNothing(s: seq<byte>, at: nat)
    requires at <= |s|
    ensures Patch(s, at, []) == s
  {
  }

  /** memcpy between two buffers. */
  method Memcpy(dst: array<byte>, d: nat, src: array<byte>, s: nat, n: nat)
    requires dst != src && d + n <= dst.Length && s + n <= src.Length
    modifies dst
    ensures dst[..] == Patch(old(dst[..]), d, src[s..s + n])
  {
    var k := 0;
    while k < n
      invariant 0 <= k <= n
      invariant forall i :: 0 <= i < dst.Length ==> dst[i] == if d <= i < d + k then src[s + i - d] else old(dst[i])
    {
      dst[d + k] := src[s + k];
      k := k + 1;
    }
  }

  // ---- Words ------------------------------------------------------------------------------------

  /** The k-th little-endian 32-bit word. */
  function WordAt(b: seq<byte>, k: nat): (w: nat)
    requires 4 * k + 4 <= |b|
    ensures w < WORD_LIMIT
  {
    (b[4 * k] as int) + 0x100 * (b[4 * k + 1] as int) + 0x1_0000 * (b[4 * k + 2] as int) + 0x100_0000 * (b[4 * k + 3] as int)
  }

  function Encode(x: nat): (r: seq<byte>)
    requires x < WORD_LIMIT
    ensures |r| == 4 && WordAt(r, 0) == x
  {
    var y := x / 0x100;
    var z := y / 0x100;
    [x % 0x100, y % 0x100, z % 0x100, z / 0x100]
  }

  /** The number that n bytes stand for, the first byte counting ones, the next 256s, and so on. */
  function LittleEndian(b: seq<byte>, at: nat, n: nat): (w: nat)
    requires at + n <= |b|
    decreases n
  {
    if n == 0 then 0 else (b[at] as int) + 256 * LittleEndian(b, at + 1, n - 1)
  }

  /** Words on disk are little-endian. */
  lemma WordIs(b: seq<byte>, k: nat)
    requires 4 * k + 4 <= |b|
    ensures WordAt(b, k) == LittleEndian(b, 4 * k, 4)
  {
    var at := 4 * k;
    FourBytes(b, at);
  }

  lemma FourBytes(b: seq<byte>, at: nat)
    requires at + 4 <= |b|
    ensures LittleEndian(b, at, 4) ==
      (b[at] as int) + 256 * (b[at + 1] as int) + 65536 * (b[at + 2] as int) + 16777216 * (b[at + 3] as int)
  {
    TwoBytes(b, at + 2);
  }

  lemma TwoBytes(b: seq<byte>, at: nat)
    requires at + 2 <= |b|
    ensures LittleEndian(b, at, 2) == (b[at] as int) + 256 * (b[at + 1] as int)
  {
    assert LittleEndian(b, at + 2, 0) == 0;
    assert LittleEndian(b, at + 1, 1) == b[at + 1];
  }

  /** And so are words that are written. */
  lemma EncodeIs(x: nat)
    requires x < WORD_LIMIT
    ensures LittleEndian(Encode(x), 0, 4) == x
  {
    hide Encode;
    WordIs(Encode(x), 0);
  }

  /** The number whose bytes these are. */
  function FromBytes(a: int, b: int, c: int, d: int): int { a + 0x100 * b + 0x1_0000 * c + 0x100_0000 * d }

  /** Four bytes are the only encoding of the number they stand for. */
  lemma EncodeBytes(a: byte, b: byte, c: byte, d: byte)
    ensures 0 <= FromBytes(a, b, c, d) < WORD_LIMIT && Encode(FromBytes(a, b, c, d)) == [a, b, c, d]
  {
    var z: nat := d;
    var y: nat := (c as int) + 0x100 * z;
    var x: nat := (b as int) + 0x100 * y;
    OneDigit(a, x);
    OneDigit(b, y);
    OneDigit(c, z);
  }

  lemma OneDigit(a: byte, x: nat)
    ensures var w := (a as int) + 0x100 * x; w % 0x100 == a && w / 0x100 == x
  {
  }

  lemma WordOfPatch(b: seq<byte>, j: nat, k: nat, x: nat)
    requires 4 * j + 4 <= |b| && 4 * k + 4 <= |b| && x < WORD_LIMIT
    ensures WordAt(Patch(b, 4 * j, Encode(x)), k) == if j == k then x else WordAt(b, k)
  {
    hide Encode;
  }
}
