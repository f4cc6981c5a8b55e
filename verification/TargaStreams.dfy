/** What coders write is what the decoder of src/gui/targa.c:66-109 reads: packets as the Truevision TGA File Format
    Specification 2.0 lays them out, and the pixels they stand for. */
module TargaStreams {
  import opened Arithmetic
  import opened Bytes
  import opened Targa

  type Code = seq<byte>                         // one pixel: a colour, or an index into the colour map

  /** A packet before it is written: one pixel n times, or up to 128 pixels. */
  datatype Piece = Repeat(n: nat, code: Code) | List(codes: seq<Code>)

  /** The colour stored at a place: blue, green, red, and alpha when there is a fourth byte. */
  function ColourAtPlace(b: seq<byte>, at: nat, size: nat): nat
    requires (size == 3 || size == 4) && at + size <= |b|
  {
    LittleEndian(b, at, 3) + 0x100_0000 * if size == 4 then b[at + 3] as int else 255
  }

  /** The code is one that pixels of this kind have; its colour lies in the map behind the header. */
  predicate CodeOk(head: seq<byte>, c: Coding, u: Code)
    requires c.Valid()
  {
    match c
    case Mapped(size) => |u| == 1 && 18 + (u[0] as int) * size + size <= |head|
    case Direct(size) => |u| == size
  }

  function PixelOf(head: seq<byte>, c: Coding, u: Code): nat
    requires c.Valid() && CodeOk(head, c, u)
  {
    match c
    case Mapped(size) => ColourAtPlace(head, 18 + (u[0] as int) * size, size)
    case Direct(size) => ColourAtPlace(u, 0, size)
  }

  predicate PieceOk(head: seq<byte>, c: Coding, p: Piece)
    requires c.Valid()
  {
    match p
    case Repeat(n, code) => 1 <= n <= 128 && CodeOk(head, c, code)
    case List(codes) => 1 <= |codes| <= 128 && forall u :: u in codes ==> CodeOk(head, c, u)
  }

  function Joined(codes: seq<Code>): seq<byte> { if codes == [] then [] else codes[0] + Joined(codes[1..]) }

  function Written(p: Piece): seq<byte>
    requires if p.Repeat? then 1 <= p.n <= 128 else 1 <= |p.codes| <= 128
  {
    match p
    case Repeat(n, code) => [(127 + n) as byte] + code
    case List(codes) => [(|codes| - 1) as byte] + Joined(codes)
  }

  function Painted1(head: seq<byte>, c: Coding, p: Piece): seq<nat>
    requires c.Valid() && PieceOk(head, c, p)
  {
    match p
    case Repeat(n, code) => seq(n, _ => PixelOf(head, c, code))
    case List(codes) => seq(|codes|, i requires 0 <= i < |codes| => PixelOf(head, c, codes[i]))
  }

  predicate AllOk(head: seq<byte>, c: Coding, ps: seq<Piece>)
    requires c.Valid()
  {
    forall i :: 0 <= i < |ps| ==> PieceOk(head, c, ps[i])
  }

  function Stream(head: seq<byte>, c: Coding, ps: seq<Piece>): seq<byte>
    requires c.Valid() && AllOk(head, c, ps)
  {
    if ps == [] then [] else Written(ps[0]) + Stream(head, c, ps[1..])
  }

  function Pixels(head: seq<byte>, c: Coding, ps: seq<Piece>): seq<nat>
    requires c.Valid() && AllOk(head, c, ps)
  {
    if ps == [] then [] else Painted1(head, c, ps[0]) + Pixels(head, c, ps[1..])
  }

  lemma ColourIs(b: seq<byte>, c: Coding, at: nat)
    requires c.Valid() && ColourAt(b, c, at)
    ensures Colour(b, c, at) == ColourAtPlace(b, at, c.bytes)
  {
    TwoBytes(b, at + 1);
  }

  /** The pixel read where a code lies is the one that the code stands for. */
  lemma PixelIs(b: seq<byte>, head: seq<byte>, c: Coding, at: nat, u: Code)
    requires c.Valid() && CodeOk(head, c, u) && |head| <= |b| && b[..|head|] == head
    requires at + |u| <= |b| && b[at..at + |u|] == u
    ensures PixelAt(b, c, at) && Pixel(b, c, at) == PixelOf(head, c, u)
  {
    hide Colour, ColourAtPlace;
    assert b[at] == u[0];
    match c
    case Mapped(size) =>
      var j := 18 + (u[0] as int) * size;
      ColourIs(b, c, j);
      assert b[0..|head|] == head;
      SliceOfSlice(b, 0, |head|, j, j + size);
      SameColour(b, j, head, j, size);
    case Direct(size) =>
      ColourIs(b, c, at);
      assert u[0..size] == u;
      SameColour(b, at, u, 0, size);
  }

  lemma SameColour(b: seq<byte>, at: nat, d: seq<byte>, k: nat, size: nat)
    requires (size == 3 || size == 4) && at + size <= |b| && k + size <= |d| && b[at..at + size] == d[k..k + size]
    ensures ColourAtPlace(b, at, size) == ColourAtPlace(d, k, size)
  {
    assert b[at..at + size][0] == d[k..k + size][0] && b[at..at + size][1] == d[k..k + size][1];
    assert b[at..at + size][2] == d[k..k + size][2] && b[at..at + size][size - 1] == d[k..k + size][size - 1];
    TwoBytes(b, at + 1);
    TwoBytes(d, k + 1);
  }

  lemma {:induction false} CodeInList(codes: seq<Code>, size: nat, i: nat)
    requires i < |codes| && forall u :: u in codes ==> |u| == size
    ensures i * size + size <= |Joined(codes)| == |codes| * size
    ensures Joined(codes)[i * size..i * size + size] == codes[i]
  {
    var rest := codes[1..];
    assert codes[0] in codes;
    JoinedSize(codes, size);
    Monotone(i + 1, |codes|, size);
    assert (i + 1) * size == i * size + size;
    if i > 0 {
      CodeInList(rest, size, i - 1);
      assert i * size == (i - 1) * size + size;
    }
  }

  lemma {:induction false} JoinedSize(codes: seq<Code>, size: nat)
    requires forall u :: u in codes ==> |u| == size
    ensures |Joined(codes)| == |codes| * size
  {
    if codes != [] {
      assert codes[0] in codes;
      JoinedSize(codes[1..], size);
      OneMore(|codes| - 1, size);
    }
  }

  lemma OneMore(n: nat, size: nat)
    ensures (n + 1) * size == n * size + size
  {
  }

  /** One packet, read where it has been written. */
  lemma RepeatRead(b: seq<byte>, head: seq<byte>, c: Coding, m: nat, n: nat, code: Code)
    requires c.Valid() && 1 <= n <= 128 && CodeOk(head, c, code) && |head| <= |b| && b[..|head|] == head
    requires m + 1 + |code| <= |b| && b[m] == (127 + n) as byte && b[m + 1..m + 1 + |code|] == code
    ensures PacketAt(b, c, m) && Amount(b[m]) == n && Next(b, c, m) == m + 1 + |code|
    ensures Packet(b, c, m) == Painted1(head, c, Repeat(n, code))
  {
    hide Pixel, PixelOf, PixelAt;
    PixelIs(b, head, c, m + 1, code);
  }

  lemma ListRead(b: seq<byte>, head: seq<byte>, c: Coding, m: nat, codes: seq<Code>)
    requires c.Valid() && PieceOk(head, c, List(codes)) && |head| <= |b| && b[..|head|] == head
    requires m + 1 + |Joined(codes)| <= |b| && b[m] == (|codes| - 1) as byte && b[m + 1..m + 1 + |Joined(codes)|] == Joined(codes)
    ensures PacketAt(b, c, m) && Amount(b[m]) == |codes| && Next(b, c, m) == m + 1 + |Joined(codes)|
    ensures Packet(b, c, m) == Painted1(head, c, List(codes))
  {
    hide Pixel, PixelOf, PixelAt, Joined;
    var size := c.Unit();
    JoinedSize(codes, size);
    forall i: nat | i < |codes|
      ensures PixelAt(b, c, Place(c, m, i)) && Pixel(b, c, Place(c, m, i)) == PixelOf(head, c, codes[i])
    {
      CodeInList(codes, size, i);
      SliceOfSlice(b, m + 1, m + 1 + |Joined(codes)|, i * size, i * size + size);
      PixelIs(b, head, c, Place(c, m, i), codes[i]);
    }
  }

  /** Decoding what has been coded gives the pixels back, for every list of packets that fits the image, whatever follows a
      full image in the file. */
  lemma {:induction false} DecodesCoded(b: seq<byte>, head: seq<byte>, c: Coding, m: nat, ps: seq<Piece>, after: seq<byte>, left: nat)
    requires c.Valid() && AllOk(head, c, ps) && |head| <= m <= |b| && b[..|head|] == head
    requires b[m..] == Stream(head, c, ps) + after && |Pixels(head, c, ps)| <= left
    requires |Pixels(head, c, ps)| == left || after == []
    ensures WellFormed(b, c, m, left) && Expand(b, c, m, left) == Pixels(head, c, ps)
    decreases |ps|
  {
    hide PacketAt, Packet, Next, Painted1, PieceOk, Written, WellFormed, Expand, Amount;
    if ps == [] {
      assert |b[m..]| == |after|;
      Ended(b, c, m, left);
    } else {
      var first, rest := FirstOf(head, c, ps);
      assert first + rest + after == first + (rest + after);
      OnePiece(b, head, c, m, ps[0], rest + after);
      PixelsStep(head, c, ps);
      DecodesCoded(b, head, c, Next(b, c, m), ps[1..], after, left - |Painted1(head, c, ps[0])|);
      Onwards(b, c, m, left);
    }
  }

  lemma FirstOf(head: seq<byte>, c: Coding, ps: seq<Piece>) returns (first: seq<byte>, rest: seq<byte>)
    requires c.Valid() && ps != [] && AllOk(head, c, ps)
    ensures AllOk(head, c, ps[1..]) && rest == Stream(head, c, ps[1..]) && Stream(head, c, ps) == first + rest
    ensures PieceOk(head, c, ps[0]) && first == Written(ps[0])
  {
    first, rest := Written(ps[0]), Stream(head, c, ps[1..]);
  }

  lemma PixelsStep(head: seq<byte>, c: Coding, ps: seq<Piece>)
    requires c.Valid() && ps != [] && AllOk(head, c, ps)
    ensures Pixels(head, c, ps) == Painted1(head, c, ps[0]) + Pixels(head, c, ps[1..])
  {
  }

  lemma Ended(b: seq<byte>, c: Coding, m: nat, left: nat)
    requires c.Valid() && (left == 0 || m >= |b|)
    ensures WellFormed(b, c, m, left) && Expand(b, c, m, left) == []
  {
  }

  lemma Onwards(b: seq<byte>, c: Coding, m: nat, left: nat)
    requires c.Valid() && m < |b| && PacketAt(b, c, m) && Amount(b[m]) <= left
    requires WellFormed(b, c, Next(b, c, m), left - Amount(b[m]))
    ensures WellFormed(b, c, m, left)
    ensures Expand(b, c, m, left) == Packet(b, c, m) + Expand(b, c, Next(b, c, m), left - Amount(b[m]))
  {
  }

  lemma OnePiece(b: seq<byte>, head: seq<byte>, c: Coding, m: nat, p: Piece, rest: seq<byte>)
    requires c.Valid() && PieceOk(head, c, p) && |head| <= m <= |b| && b[..|head|] == head && b[m..] == Written(p) + rest
    ensures m < |b| && PacketAt(b, c, m) && Packet(b, c, m) == Painted1(head, c, p) && |Painted1(head, c, p)| == Amount(b[m]) > 0
    ensures Next(b, c, m) <= |b| && b[Next(b, c, m)..] == rest
  {
    hide PacketAt, Packet, Next, Painted1, Joined, CodeOk;
    var w := Written(p);
    assert b[m..][0] == w[0] && b[m] == w[0];
    assert b[m + 1..m + |w|] == w[1..];
    assert b[m + |w|..] == rest;
    match p
    case Repeat(n, code) => RepeatRead(b, head, c, m, n, code); PaintedSize(head, c, p);
    case List(codes) => ListRead(b, head, c, m, codes); PaintedSize(head, c, p);
  }

  lemma PaintedSize(head: seq<byte>, c: Coding, p: Piece)
    requires c.Valid() && PieceOk(head, c, p)
    ensures |Painted1(head, c, p)| == if p.Repeat? then p.n else |p.codes|
  {
  }
}
