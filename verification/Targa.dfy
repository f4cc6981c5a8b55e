/** Run-length decoding of TGA images, types 9 and 10 (src/gui/targa.c:36-113; Truevision TGA File Format
    Specification 2.0). */
module Targa {
  import opened Arithmetic
  import opened Bytes
  import opened Options

  const HEADER := 18

  /** How a pixel is coded: an index into a colour map, or the colour itself; `bytes` is the size of a colour. */
  datatype Coding = Mapped(bytes: nat) | Direct(bytes: nat) {
    predicate Valid() { bytes == 3 || bytes == 4 }
    /** Bytes of the stream that one pixel takes. */
    function Unit(): nat { if Mapped? then 1 else bytes }
  }

  // ---- The stream ---------------------------------------------------------------------------------

  predicate ColourAt(b: seq<byte>, c: Coding, j: nat) { j + c.bytes <= |b| }

  /** Blue, green, red and, with four bytes, alpha; opaque otherwise. */
  function Colour(b: seq<byte>, c: Coding, j: nat): nat
    requires c.Valid() && ColourAt(b, c, j)
  {
    (if c.bytes == 4 then b[j + 3] as int else 0xFF) * 0x100_0000 + (b[j + 2] as int) * 0x1_0000
    + (b[j + 1] as int) * 0x100 + (b[j] as int)
  }

  predicate PixelAt(b: seq<byte>, c: Coding, m: nat) {
    m + c.Unit() <= |b| && (c.Mapped? ==> ColourAt(b, c, (b[m] as int) * c.bytes + HEADER))
  }

  function Pixel(b: seq<byte>, c: Coding, m: nat): nat
    requires c.Valid() && PixelAt(b, c, m)
  {
    if c.Mapped? then Colour(b, c, (b[m] as int) * c.bytes + HEADER) else Colour(b, c, m)
  }

  predicate IsRun(k: byte) { k > 127 }

  /** The top bit of a packet's first byte says which kind it is, the other seven count its pixels but one. */
  lemma PacketByte(k: byte)
    ensures IsRun(k) <==> k / 128 == 1
    ensures Amount(k) == k % 128 + 1
  {
  }

  function Amount(k: byte): (n: nat)
    ensures 0 < n <= 128
  {
    if k > 127 then (k as int) - 127 else (k as int) + 1
  }

  function Next(b: seq<byte>, c: Coding, m: nat): (r: nat)
    requires c.Valid() && m < |b|
    ensures r > m
  {
    m + 1 + if IsRun(b[m]) then c.Unit() else Amount(b[m]) * c.Unit()
  }

  /** Where pixel i of the raw packet at m begins. */
  function Place(c: Coding, m: nat, i: nat): nat { m + 1 + i * c.Unit() }

  /** The packet at m is whole, and so are its pixels. */
  predicate PacketAt(b: seq<byte>, c: Coding, m: nat)
    requires c.Valid()
  {
    && m < |b|
    && if IsRun(b[m]) then PixelAt(b, c, m + 1)
       else forall i: nat :: i < Amount(b[m]) ==> PixelAt(b, c, Place(c, m, i))
  }

  /** A stream of whole packets with no more than `left` pixels; it may stop early between two packets. */
  predicate WellFormed(b: seq<byte>, c: Coding, m: nat, left: nat)
    requires c.Valid()
    decreases left
  {
    left > 0 && m < |b| ==> PacketAt(b, c, m) && Amount(b[m]) <= left && WellFormed(b, c, Next(b, c, m), left - Amount(b[m]))
  }

  function Packet(b: seq<byte>, c: Coding, m: nat): (r: seq<nat>)
    requires c.Valid() && PacketAt(b, c, m)
    ensures |r| == Amount(b[m])
  {
    if IsRun(b[m]) then seq(Amount(b[m]), i => Pixel(b, c, m + 1))
    else seq(Amount(b[m]), i requires 0 <= i < Amount(b[m]) => Pixel(b, c, Place(c, m, i)))
  }

  /** The pixels of the stream in the order in which it codes them. */
  function Expand(b: seq<byte>, c: Coding, m: nat, left: nat): (r: seq<nat>)
    requires c.Valid() && WellFormed(b, c, m, left)
    ensures |r| <= left
    decreases left
  {
    if left > 0 && m < |b| then Packet(b, c, m) + Expand(b, c, Next(b, c, m), left - Amount(b[m])) else []
  }

  // ---- Where pixels go ----------------------------------------------------------------------------

  /** The row of the image for the y-th row of the stream: bottom up when the origin is 0. */
  function Row(h: nat, origin: nat, y: int): int { if origin == 0 then h - y - 1 else y }

  /** Where the decoder puts the t-th pixel of the stream, relative to the first place of the image; it does not stop at
      the last one. */
  function PutAt(w: nat, h: nat, origin: nat, t: nat): int
    requires w > 0
  {
    Row(h, origin, t / w) * w + t % w
  }

  /** The place of the t-th pixel of the image. */
  function Slot(w: nat, h: nat, origin: nat, t: nat): (s: nat)
    requires t < w * h
    ensures s < w * h
  {
    SlotFits(w, h, origin, t);
    PutAt(w, h, origin, t)
  }

  lemma DivFacts(w: nat, t: nat, h: nat)
    requires t < w * h
    ensures w > 0 && t == t / w * w + t % w && 0 <= t / w < h && 0 <= t % w < w
  {
    assert w > 0;
    DivBelow(t, w, h);
    DivMod(t, w);
  }

  lemma SlotFits(w: nat, h: nat, origin: nat, t: nat)
    requires t < w * h
    ensures w > 0 && 0 <= Row(h, origin, t / w) < h && 0 <= Row(h, origin, t / w) * w + t % w < w * h
  {
    DivFacts(w, t, h);
    var r := Row(h, origin, t / w);
    Monotone(r + 1, h, w);
    assert (r + 1) * w == r * w + w && 0 <= r * w;
  }

  /** Slot is its own inverse, so every place of the image gets exactly one pixel of a full stream. */
  lemma SlotTwice(w: nat, h: nat, origin: nat, t: nat)
    requires t < w * h
    ensures Slot(w, h, origin, Slot(w, h, origin, t)) == t
  {
    DivFacts(w, t, h);
    SlotFits(w, h, origin, t);
    var s, r := Slot(w, h, origin, t), Row(h, origin, t / w);
    DivFacts(w, s, h);
    DivUnique(s, w, r, t % w);
  }

  /** With the origin at the top the pixels lie in the order of the stream; with the origin at the bottom the rows are turned
      upside down, so that the first row of the stream is the last one of the image. */
  lemma SlotIs(w: nat, h: nat, origin: nat, t: nat)
    requires t < w * h
    ensures origin != 0 ==> Slot(w, h, origin, t) == t
    ensures origin == 0 ==> w > 0 && Slot(w, h, origin, t) / w + t / w == h - 1 && Slot(w, h, origin, t) % w == t % w
  {
    DivFacts(w, t, h);
    SlotFits(w, h, origin, t);
    DivUnique(Slot(w, h, origin, t), w, Row(h, origin, t / w), t % w);
  }

  lemma SlotsDiffer(w: nat, h: nat, origin: nat, s: nat, t: nat)
    requires s < w * h && t < w * h && s != t
    ensures Slot(w, h, origin, s) != Slot(w, h, origin, t)
  {
    hide Slot;
    SlotTwice(w, h, origin, s);
    SlotTwice(w, h, origin, t);
  }

  // ---- The decoder --------------------------------------------------------------------------------

  /** The running position i and the number y of rows begun, when t pixels have been placed. */
  predicate Ready(w: nat, h: nat, origin: nat, t: nat, i: int, y: int)
    requires 0 < w
  {
    if t % w == 0 then i % w == 0 && y == t / w
    else i == PutAt(w, h, origin, t) && y == t / w + 1
  }

  /** The test before each pixel starts a new row exactly when the last one is full, inside the image and beyond it. */
  lemma Advance(w: nat, h: nat, origin: nat, t: nat, i: int, y: int, i': int, y': int)
    requires 0 < w && Ready(w, h, origin, t, i, y)
    requires (i', y') == if i % w == 0 then (Row(h, origin, y) * w, y + 1) else (i, y)
    ensures i' == PutAt(w, h, origin, t) && y' == t / w + 1
    ensures Ready(w, h, origin, t + 1, i' + 1, y')
  {
    hide Row;
    var q, k := t / w, t % w;
    DivMod(t, w);
    Residue(w, Row(h, origin, q), k);
    NextPlace(w, t, q, k);
    Residue(w, Row(h, origin, q), k + 1);
  }

  /** The remainder of a place is its column, in rows above the image too. */
  lemma Residue(w: nat, r: int, k: nat)
    requires 0 < w && k <= w
    ensures (r * w + k) % w == if k == w then 0 else k
  {
    var x, q := r * w + k, if k == w then r + 1 else r;
    assert (r + 1) * w == r * w + w;
    Euclid(x, w);
    var d := x / w - q;
    assert d * w == x / w * w - q * w;
    if d >= 1 { Scaled(d, w); }
    if d <= -1 { Scaled(-d, w); }
  }

  lemma Euclid(x: int, w: nat)
    requires w > 0
    ensures x == x / w * w + x % w && 0 <= x % w < w
  {
  }

  lemma Scaled(d: nat, w: nat)
    requires d >= 1
    ensures d * w >= w && (0 - d) * w == 0 - d * w
  {
    Monotone(1, d, w);
  }

  lemma NextPlace(w: nat, x: nat, q: nat, r: nat)
    requires r < w && x == q * w + r
    ensures (x + 1) / w == (if r + 1 == w then q + 1 else q) && (x + 1) % w == if r + 1 == w then 0 else r + 1
  {
    assert (q + 1) * w == q * w + w;
    if r + 1 == w { DivUnique(x + 1, w, q + 1, 0); } else { DivUnique(x + 1, w, q, r + 1); }
  }

  /** The pixels placed so far are in their slots, and no other place has been touched. */
  ghost predicate Painted(was: seq<nat>, now: seq<nat>, w: nat, h: nat, origin: nat, px: seq<nat>) {
    && |was| == |now| == w * h + 2 && |px| <= w * h
    && forall t: nat :: t < w * h ==> now[2 + Slot(w, h, origin, t)] == if t < |px| then px[t] else was[2 + Slot(w, h, origin, t)]
  }

  lemma PaintOne(was: seq<nat>, now: seq<nat>, w: nat, h: nat, origin: nat, px: seq<nat>, x: nat)
    requires Painted(was, now, w, h, origin, px) && |px| < w * h
    ensures Painted(was, now[2 + Slot(w, h, origin, |px|) := x], w, h, origin, px + [x])
  {
    hide Slot;
    var t := |px|;
    forall s: nat | s < w * h && s != t
      ensures Slot(w, h, origin, s) != Slot(w, h, origin, t)
    {
      SlotsDiffer(w, h, origin, s, t);
    }
  }

  method Put(data: array<nat>, w: nat, h: nat, origin: nat, i: int, y: int, x: nat, ghost was: seq<nat>, ghost px: seq<nat>)
    returns (i': int, y': int)
    requires 0 < w && Painted(was, data[..], w, h, origin, px) && |px| < w * h && Ready(w, h, origin, |px|, i, y)
    modifies data
    ensures Painted(was, data[..], w, h, origin, px + [x]) && Ready(w, h, origin, |px| + 1, i', y')
  {
    hide Ready, Painted, PutAt, Row;
    i', y' := i, y;
    if i % w == 0 {
      i' := Row(h, origin, y) * w;
      y' := y + 1;
    }
    Advance(w, h, origin, |px|, i, y, i', y');
    PaintOne(was, data[..], w, h, origin, px, x);
    Size(was, data[..], w, h, origin, px);
    data[2 + i'] := x;
    i' := i' + 1;
  }

  lemma Size(was: seq<nat>, now: seq<nat>, w: nat, h: nat, origin: nat, px: seq<nat>)
    requires Painted(was, now, w, h, origin, px)
    ensures |was| == |now| == w * h + 2
  {
  }

  // ---- Streams with more pixels than the image -------------------------------------------------

  /** How many pixels the decoder puts: it looks at the size of the image between packets only. */
  function Coded(b: seq<byte>, c: Coding, m: nat, left: int): nat
    requires c.Valid()
    decreases if left > 0 then left else 0
  {
    if left <= 0 || m >= |b| then 0 else Amount(b[m]) + Coded(b, c, Next(b, c, m), left - Amount(b[m]))
  }

  /** All packets that the decoder reads are whole. */
  predicate Whole(b: seq<byte>, c: Coding, m: nat, left: int)
    requires c.Valid()
    decreases if left > 0 then left else 0
  {
    left > 0 && m < |b| ==> PacketAt(b, c, m) && Whole(b, c, Next(b, c, m), left - Amount(b[m]))
  }

  /** A well-formed stream is one of whole packets that puts no more pixels than there are places. */
  lemma {:induction false} WellFormedIs(b: seq<byte>, c: Coding, m: nat, left: nat)
    requires c.Valid()
    ensures WellFormed(b, c, m, left) <==> Whole(b, c, m, left) && Coded(b, c, m, left) <= left
    decreases left
  {
    hide PacketAt, Next;
    if left > 0 && m < |b| {
      if Amount(b[m]) <= left { WellFormedIs(b, c, Next(b, c, m), left - Amount(b[m])); }
    }
  }

  predicate InData(w: nat, h: nat, origin: nat, t: nat)
    requires w > 0
  {
    0 <= 2 + PutAt(w, h, origin, t) < w * h + 2
  }

  /** Behind the last place of the image a pixel lies outside the buffer, except for the two that fall, above the image, on
      the two words in front of the pixels. */
  lemma BehindImage(w: nat, h: nat, origin: nat, t: nat)
    requires w > 0 && t >= w * h
    ensures InData(w, h, origin, t) <==>
      origin == 0 && if w == 1 then t < w * h + 2 else w * h + w - 2 <= t < w * h + w
  {
    hide PutAt;
    var d, rows, k := Behind(w, h, origin, t);
    AboveImage(w, w * h, d, rows, k);
  }

  lemma Behind(w: nat, h: nat, origin: nat, t: nat) returns (d: nat, rows: nat, k: nat)
    requires w > 0 && t >= w * h
    ensures k < w && t == w * h + rows + k && (w == 1 ==> rows == d) && if d == 0 then rows == 0 else rows >= w
    ensures PutAt(w, h, origin, t) == if origin == 0 then k - rows - w else t
  {
    var q := t / w;
    k := t % w;
    DivMod(t, w);
    DivBelow(t, w, h);
    d := q - h;
    rows := d * w;
    RowsSplit(h, d, w);
    RowsAbove(d, w);
    if d > 0 { Scaled(d, w); }
  }

  lemma RowsSplit(h: nat, d: nat, w: nat)
    ensures (h + d) * w == w * h + d * w && (w == 1 ==> d * w == d)
  {
  }

  lemma RowsAbove(d: nat, w: nat)
    ensures (0 - d - 1) * w == 0 - d * w - w
  {
  }

  lemma AboveImage(w: nat, area: nat, d: nat, rows: nat, k: nat)
    requires k < w && (w == 1 ==> rows == d) && if d == 0 then rows == 0 else rows >= w
    ensures 0 <= 2 + (k - rows - w) <==> if w == 1 then rows + k < 2 else w - 2 <= rows + k < w
  {
  }

  lemma InsideImage(w: nat, h: nat, origin: nat, t: nat)
    requires w > 0 && t < w * h
    ensures InData(w, h, origin, t)
  {
    SlotFits(w, h, origin, t);
  }

  /** The decoder writes nothing outside the buffer exactly when the stream has no more pixels than the image, or one or two
      more and the image has one or two columns, bottom up. */
  lemma StaysInData(b: seq<byte>, c: Coding, start: nat, w: nat, h: nat, origin: nat)
    requires c.Valid() && w > 0
    ensures (forall t: nat :: t < Coded(b, c, start, w * h) ==> InData(w, h, origin, t)) <==>
      Coded(b, c, start, w * h) <= w * h || (origin == 0 && w <= 2 && Coded(b, c, start, w * h) <= w * h + 2)
  {
    hide InData;
    var n, area := Coded(b, c, start, w * h), w * h;
    forall t: nat | t < n
      ensures t < area ==> InData(w, h, origin, t)
      ensures t >= area && origin == 0 && w <= 2 && t < area + 2 ==> InData(w, h, origin, t)
    {
      if t < area { InsideImage(w, h, origin, t); } else { BehindImage(w, h, origin, t); }
    }
    if n > area { BehindImage(w, h, origin, area); }
    if n > area + 2 { BehindImage(w, h, origin, area + 2); }
  }

  /** A run: one coded pixel, placed as often as the packet says. */
  method RunPacket(b: seq<byte>, c: Coding, m: nat, w: nat, h: nat, origin: nat, i: int, y: int, data: array<nat>,
                   ghost was: seq<nat>, ghost px: seq<nat>)
    returns (i': int, y': int, m': nat)
    requires c.Valid() && 0 < w && m < |b| && PacketAt(b, c, m) && IsRun(b[m]) && |px| + Amount(b[m]) <= w * h
    requires Painted(was, data[..], w, h, origin, px) && Ready(w, h, origin, |px|, i, y)
    modifies data
    ensures m' == Next(b, c, m) && Painted(was, data[..], w, h, origin, px + Packet(b, c, m))
    ensures Ready(w, h, origin, |px| + Amount(b[m]), i', y')
  {
    hide Ready, Painted, Slot, PacketAt, PixelAt, Pixel;
    ghost var packet := Packet(b, c, m);
    var k := Amount(b[m]);
    m' := m + 1;
    i', y' := i, y;
    var n := k;
    assert px + packet[..0] == px;
    while n > 0
      invariant 0 <= n <= k
      invariant Painted(was, data[..], w, h, origin, px + packet[..k - n]) && Ready(w, h, origin, |px| + (k - n), i', y')
    {
      PacketPixel(b, c, m, k - n);
      i', y' := Put(data, w, h, origin, i', y', Pixel(b, c, m'), was, px + packet[..k - n]);
      assert px + packet[..k - n] + [packet[k - n]] == px + packet[..k - n + 1];
      n := n - 1;
    }
    assert packet[..k] == packet;
    m' := m' + c.Unit();
  }

  /** A raw packet: as many coded pixels as it says. */
  method RawPacket(b: seq<byte>, c: Coding, m: nat, w: nat, h: nat, origin: nat, i: int, y: int, data: array<nat>,
                   ghost was: seq<nat>, ghost px: seq<nat>)
    returns (i': int, y': int, m': nat)
    requires c.Valid() && 0 < w && m < |b| && PacketAt(b, c, m) && !IsRun(b[m]) && |px| + Amount(b[m]) <= w * h
    requires Painted(was, data[..], w, h, origin, px) && Ready(w, h, origin, |px|, i, y)
    modifies data
    ensures m' == Next(b, c, m) && Painted(was, data[..], w, h, origin, px + Packet(b, c, m))
    ensures Ready(w, h, origin, |px| + Amount(b[m]), i', y')
  {
    hide Ready, Painted, Slot, PacketAt, PixelAt, Pixel, Packet;
    ghost var packet := Packet(b, c, m);
    var k := Amount(b[m]);
    m' := m + 1;
    i', y' := i, y;
    var n := k;
    assert px + packet[..0] == px;
    while n > 0
      invariant 0 <= n <= k && m' == m + 1 + (k - n) * c.Unit()
      invariant Painted(was, data[..], w, h, origin, px + packet[..k - n]) && Ready(w, h, origin, |px| + (k - n), i', y')
    {
      PacketPixel(b, c, m, k - n);
      i', y' := Put(data, w, h, origin, i', y', Pixel(b, c, m'), was, px + packet[..k - n]);
      assert px + packet[..k - n] + [packet[k - n]] == px + packet[..k - n + 1];
      assert (k - n + 1) * c.Unit() == (k - n) * c.Unit() + c.Unit();
      n := n - 1;
      m' := m' + c.Unit();
    }
    assert packet[..k] == packet;
  }

  /** The loops of cases 9 and 10: every pixel that the stream codes goes to its own slot, whatever the packets'
      lengths; nothing else is written. */
  method Decode(b: seq<byte>, c: Coding, start: nat, w: nat, h: nat, origin: nat, data: array<nat>)
    requires c.Valid() && 0 < w && 0 < h && data.Length == w * h + 2 && WellFormed(b, c, start, w * h)
    modifies data
    ensures Painted(old(data[..]), data[..], w, h, origin, Expand(b, c, start, w * h))
  {
    hide Ready, Painted, Slot, PacketAt, Next, Packet, Expand, WellFormed;
    ghost var was, all := data[..], Expand(b, c, start, w * h);
    ghost var px: seq<nat> := [];
    var m, x, i, y := start, 0, 0, 0;
    var area := w * h;
    Nothing(was, w, h, origin);
    while x < area && m < |b|
      invariant 0 <= x <= area && |px| == x && 0 <= m
      invariant Painted(was, data[..], w, h, origin, px) && Ready(w, h, origin, x, i, y)
      invariant WellFormed(b, c, m, area - x) && all == px + Expand(b, c, m, area - x)
      decreases area - x
    {
      var k := Amount(b[m]);
      Unpack(b, c, m, area - x);
      ghost var packet := Packet(b, c, m);
      if IsRun(b[m]) {
        i, y, m := RunPacket(b, c, m, w, h, origin, i, y, data, was, px);
      } else {
        i, y, m := RawPacket(b, c, m, w, h, origin, i, y, data, was, px);
      }
      px := px + packet;
      x := x + k;
    }
    Finished(b, c, m, area - x);
    assert all == px;
  }

  lemma Finished(b: seq<byte>, c: Coding, m: nat, left: nat)
    requires c.Valid() && WellFormed(b, c, m, left) && (left == 0 || m >= |b|)
    ensures Expand(b, c, m, left) == []
  {
  }

  lemma Nothing(was: seq<nat>, w: nat, h: nat, origin: nat)
    requires 0 < w && |was| == w * h + 2
    ensures Painted(was, was, w, h, origin, []) && Ready(w, h, origin, 0, 0, 0)
  {
  }

  lemma Unpack(b: seq<byte>, c: Coding, m: nat, left: nat)
    requires c.Valid() && WellFormed(b, c, m, left) && left > 0 && m < |b|
    ensures PacketAt(b, c, m) && Amount(b[m]) <= left && WellFormed(b, c, Next(b, c, m), left - Amount(b[m]))
    ensures Expand(b, c, m, left) == Packet(b, c, m) + Expand(b, c, Next(b, c, m), left - Amount(b[m]))
  {
  }

  lemma PacketPixel(b: seq<byte>, c: Coding, m: nat, i: nat)
    requires c.Valid() && PacketAt(b, c, m) && i < Amount(b[m])
    ensures var at := if IsRun(b[m]) then m + 1 else Place(c, m, i);
      PixelAt(b, c, at) && Packet(b, c, m)[i] == Pixel(b, c, at)
  {
  }

  /** A full stream paints the whole image: place s holds the pixel whose slot it is. */
  lemma FullImage(was: seq<nat>, now: seq<nat>, w: nat, h: nat, origin: nat, px: seq<nat>, s: nat)
    requires Painted(was, now, w, h, origin, px) && |px| == w * h && s < w * h
    ensures now[2 + s] == px[Slot(w, h, origin, s)]
  {
    hide Slot;
    SlotTwice(w, h, origin, s);
  }

  // ---- The header ---------------------------------------------------------------------------------

  function Word16(b: seq<byte>, k: nat): (w: nat)
    requires k + 2 <= |b|
    ensures w == LittleEndian(b, k, 2)
  {
    TwoBytes(b, k);
    (b[k + 1] as int) * 0x100 + (b[k] as int)
  }

  /** Type 9 has a colour map of fewer than 256 colours that begins with colour 0; type 10 has none. */
  lemma AcceptedIs(b: seq<byte>)
    requires |b| >= HEADER
    ensures var mapType, kind, first, length, bits, depth := b[1], b[2], Word16(b, 3), Word16(b, 5), b[7], b[16];
      Accepted(b) ==
        if Word16(b, 12) == 0 || Word16(b, 14) == 0 then None
        else if kind == 9 && first == 0 && length < 256 && bits == 24 then Some(Mapped(3))
        else if kind == 9 && first == 0 && length < 256 && bits == 32 then Some(Mapped(4))
        else if kind == 10 && mapType == 0 && length == 0 && depth == 24 then Some(Coding.Direct(3))
        else if kind == 10 && mapType == 0 && length == 0 && depth == 32 then Some(Coding.Direct(4))
        else None
  {
  }

  /** The pixels begin behind the colour map, and that begins behind the header. */
  lemma StartIs(b: seq<byte>)
    requires |b| >= HEADER
    ensures b[1] == 0 ==> Start(b) == 18
    ensures b[1] != 0 && Word16(b, 5) < 256 ==> Start(b) == 18 + Word16(b, 5) * ((b[7] as int) / 8)
  {
  }

  /** The header fields that targa_parse wants for types 9 and 10. */
  function Accepted(b: seq<byte>): (r: Option<Coding>)
    requires |b| >= HEADER
    ensures r.Some? ==> r.value.Valid() && Word16(b, 12) > 0 && Word16(b, 14) > 0
  {
    if Word16(b, 12) < 1 || Word16(b, 14) < 1 then None
    else if b[2] == 9 then
      if b[6] != 0 || b[4] != 0 || b[3] != 0 || (b[7] != 24 && b[7] != 32) then None else Some(Mapped(b[7] / 8))
    else if b[2] == 10 then
      if b[5] != 0 || b[6] != 0 || b[1] != 0 || (b[16] != 24 && b[16] != 32) then None else Some(Coding.Direct(b[16] / 8))
    else None
  }

  function Start(b: seq<byte>): nat
    requires |b| >= HEADER
  {
    (if b[1] != 0 then (b[7] as int) / 8 * (b[5] as int) else 0) + HEADER
  }

  /** targa_parse for types 9 and 10, up to the copy into the result: width, height, then the pixels by row. */
  method Parse(b: seq<byte>) returns (image: Option<array<nat>>)
    requires |b| >= HEADER
    requires var c := Accepted(b); c.Some? ==> WellFormed(b, c.value, Start(b), Word16(b, 12) * Word16(b, 14))
    ensures image.Some? <==> Accepted(b).Some?
    ensures image.Some? ==>
      var w, h, data := Word16(b, 12), Word16(b, 14), image.value;
      var px := Expand(b, Accepted(b).value, Start(b), w * h);
      && data.Length == w * h + 2 && data[0] == w && data[1] == h
      && (forall t: nat :: t < |px| ==> data[2 + Slot(w, h, Word16(b, 10), t)] == px[t])
      && (|px| == w * h ==> forall s: nat :: s < w * h ==> data[2 + s] == px[Slot(w, h, Word16(b, 10), s)])
  {
    hide Expand, WellFormed, Painted, Slot;
    var c := Accepted(b);
    if c.None? {
      return None;
    }
    var w, h, origin := Word16(b, 12), Word16(b, 14), Word16(b, 10);
    var data := new nat[w * h + 2];
    ghost var was, px := data[..], Expand(b, c.value, Start(b), w * h);
    Decode(b, c.value, Start(b), w, h, origin, data);
    PaintedIs(was, data[..], w, h, origin, px);
    data[0] := w;
    data[1] := h;
    image := Some(data);
  }

  lemma PaintedIs(was: seq<nat>, now: seq<nat>, w: nat, h: nat, origin: nat, px: seq<nat>)
    requires Painted(was, now, w, h, origin, px)
    ensures forall t: nat :: t < |px| ==> now[2 + Slot(w, h, origin, t)] == px[t]
    ensures |px| == w * h ==> forall s: nat :: s < w * h ==> now[2 + s] == px[Slot(w, h, origin, s)]
  {
    if |px| == w * h {
      forall s: nat | s < w * h
        ensures now[2 + s] == px[Slot(w, h, origin, s)]
      {
        FullImage(was, now, w, h, origin, px, s);
      }
    }
  }
}
