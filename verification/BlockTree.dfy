/** The block map of an EXT2 inode: twelve direct blocks and trees of one, two and three levels of tables
    (src/fs/ext2.c:459-577), as functions of the disk contents. A block has p words of four bytes. */
module BlockTree {
  import opened Arithmetic
  import opened Bytes

  const DIRECT := 12                            // EXT2_DIRECT_BLOCKS
  const ROOTS := 15                             // words of inode->blocks

  // ---- Blocks on disk --------------------------------------------------------------------------

  predicate InDisk(disk: seq<byte>, bs: nat, n: nat) { n * bs + bs <= |disk| }

  function BlockOf(disk: seq<byte>, bs: nat, n: nat): (b: seq<byte>)
    requires InDisk(disk, bs, n)
    ensures |b| == bs
  {
    disk[n * bs..n * bs + bs]
  }

  lemma BlocksApart(bs: nat, m: nat, n: nat)
    requires m < n
    ensures m * bs + bs <= n * bs
  {
    var d := n - m - 1;
    assert d * bs >= 0;
    assert n * bs == m * bs + bs + d * bs;
  }

  /** The disk after block n has been written. */
  function SetBlock(disk: seq<byte>, bs: nat, n: nat, b: seq<byte>): (r: seq<byte>)
    requires InDisk(disk, bs, n) && |b| == bs
    ensures |r| == |disk|
  {
    Patch(disk, n * bs, b)
  }

  lemma BlockAfterSet(disk: seq<byte>, bs: nat, n: nat, b: seq<byte>, m: nat)
    requires InDisk(disk, bs, n) && |b| == bs && InDisk(disk, bs, m)
    ensures BlockOf(SetBlock(disk, bs, n, b), bs, m) == if m == n then b else BlockOf(disk, bs, m)
  {
    if m == n {
      PatchInside(disk, n * bs, b);
    } else {
      if m < n { BlocksApart(bs, m, n); } else { BlocksApart(bs, n, m); }
      PatchSlice(disk, n * bs, b, m * bs, m * bs + bs);
    }
  }

  /** Word k of block n; 0 for a block outside the disk. */
  function Entry(disk: seq<byte>, p: nat, n: nat, k: nat): nat
    requires k < p
  {
    if InDisk(disk, 4 * p, n) then WordAt(BlockOf(disk, 4 * p, n), k) else 0
  }

  /** The disk after word k of block n has been set. */
  function SetWord(disk: seq<byte>, p: nat, n: nat, k: nat, x: nat): (r: seq<byte>)
    requires k < p && InDisk(disk, 4 * p, n) && x < WORD_LIMIT
    ensures |r| == |disk|
  {
    SetBlock(disk, 4 * p, n, Patch(BlockOf(disk, 4 * p, n), 4 * k, Encode(x)))
  }

  lemma EntryAfterSet(disk: seq<byte>, p: nat, n: nat, k: nat, x: nat, m: nat, j: nat)
    requires k < p && j < p && InDisk(disk, 4 * p, n) && x < WORD_LIMIT
    ensures Entry(SetWord(disk, p, n, k, x), p, m, j) == if m == n && j == k then x else Entry(disk, p, m, j)
  {
    hide SetBlock, Encode, Patch, WordAt;
    if InDisk(disk, 4 * p, m) {
      BlockAfterSet(disk, 4 * p, n, Patch(BlockOf(disk, 4 * p, n), 4 * k, Encode(x)), m);
      if m == n {
        WordOfPatch(BlockOf(disk, 4 * p, n), k, j, x);
      }
    }
  }

  // ---- Where a file block is recorded ---------------------------------------------------------

  /** A place in the block map: a word of inode->blocks, then the word taken in each table on the way. */
  type Place = seq<nat>

  /** How many tables hang one below another under word k of inode->blocks. */
  function Depth(k: nat): nat { if k < DIRECT then 0 else k - DIRECT + 1 }

  /** A place where a table's block number is recorded, or the number of a file block. */
  predicate IsPlace(p: nat, s: Place) {
    |s| > 0 && s[0] < ROOTS && |s| <= 1 + Depth(s[0]) && forall k :: 1 <= k < |s| ==> s[k] < p
  }

  predicate IsLeaf(p: nat, s: Place) { IsPlace(p, s) && |s| == 1 + Depth(s[0]) }

  predicate IsTable(p: nat, s: Place) { IsPlace(p, s) && |s| <= Depth(s[0]) }

  function InTriple(p: nat, c: nat): Place
    requires p > 0
  {
    var s := p * p;
    assert s > 0;
    [DIRECT + 2, c / s, c % s / p, c % s % p]
  }

  /** The place that get_DBlock_num reads for file block i; none past the triple tables. */
  function Locate(p: nat, i: nat): Place
    requires p > 0
  {
    if i < DIRECT then [i]
    else if i - DIRECT < p then [DIRECT, i - DIRECT]
    else
      var b := i - DIRECT - p;
      if b < p * p then [DIRECT + 1, b / p, b % p]
      else
        var c := b - p * p;
        if c < p * p * p then InTriple(p, c) else []
  }

  /** The place that set_DBlock_num writes: its tests admit one file block too many on every level. */
  function SetLocate(p: nat, i: nat): Place
    requires p > 0
  {
    if i <= DIRECT then [i]
    else if i - DIRECT <= p then [DIRECT, i - DIRECT]
    else
      var b := i - DIRECT - p;
      if b <= p * p then [DIRECT + 1, b / p, b % p]
      else
        var c := b - p * p;
        if c <= p * p * p then InTriple(p, c) else []
  }

  function FromDigits(p: nat, e: nat, f: nat, g: nat): nat { e * (p * p) + (f * p + g) }

  /** The file block recorded at a leaf. */
  function IndexOf(p: nat, s: Place): nat {
    if |s| == 1 then s[0]
    else if |s| == 2 then DIRECT + s[1]
    else if |s| == 3 then DIRECT + p + s[1] * p + s[2]
    else if |s| == 4 then DIRECT + p + p * p + FromDigits(p, s[1], s[2], s[3])
    else 0
  }

  function MaxBlocks(p: nat): nat { DIRECT + p + p * p + p * p * p }

  lemma TwoDigits(p: nat, b: nat)
    requires p > 0
    ensures b % p < p && b == b / p * p + b % p
    ensures b < p * p <==> b / p < p
  {
    DivMod(b, p);
    DivBelow(b, p, p);
  }

  lemma ThreeDigits(p: nat, c: nat)
    requires p > 0
    ensures p * p > 0 && c % (p * p) / p < p && c % (p * p) % p < p
    ensures c == c / (p * p) * (p * p) + (c % (p * p) / p * p + c % (p * p) % p)
    ensures c < p * p * p <==> c / (p * p) < p
  {
    var s := p * p;
    assert s > 0;
    DivMod(c, s);
    TwoDigits(p, c % s);
    DivBelow(c, s, p);
    assert p * s == p * p * p;
  }

  /** Every file block below the limit has a leaf, and every leaf holds the file block it came from. */
  lemma LocateOf(p: nat, i: nat)
    requires p > 0
    ensures IsLeaf(p, Locate(p, i)) <==> i < MaxBlocks(p)
    ensures i < MaxBlocks(p) ==> IndexOf(p, Locate(p, i)) == i
  {
    if i >= DIRECT + p {
      var b := i - DIRECT - p;
      if b < p * p {
        TwoDigits(p, b);
        assert p * p * p >= 0;
      } else {
        LocateTriple(p, i, b - p * p);
      }
    }
  }

  lemma LocateTriple(p: nat, i: nat, c: nat)
    requires p > 0 && i == DIRECT + p + p * p + c
    ensures c < p * p * p ==> IsLeaf(p, Locate(p, i)) && IndexOf(p, Locate(p, i)) == i
    ensures c >= p * p * p ==> Locate(p, i) == []
  {
    hide InTriple;
    ThreeDigits(p, c);
    var s := p * p;
    assert InTriple(p, c) == [DIRECT + 2, c / s, c % s / p, c % s % p] by { InTripleIs(p, c, s); }
  }

  lemma InTripleIs(p: nat, c: nat, s: nat)
    requires p > 0 && s == p * p
    ensures s > 0 && InTriple(p, c) == [DIRECT + 2, c / s, c % s / p, c % s % p]
  {
    assert s > 0;
  }

  lemma Triple(p: nat, e: nat, f: nat, g: nat)
    requires e < p && f < p && g < p
    ensures FromDigits(p, e, f, g) < p * p * p && InTriple(p, FromDigits(p, e, f, g)) == [DIRECT + 2, e, f, g]
  {
    var s, r, c := p * p, f * p + g, FromDigits(p, e, f, g);
    DivUnique(r, p, f, g);
    DivBelow(r, p, p);
    DivUnique(c, s, e, r);
    DivBelow(c, s, p);
    assert p * s == p * p * p;
  }

  lemma Double(p: nat, c: nat, d: nat, b: nat)
    requires c < p && d < p && b == c * p + d
    ensures b < p * p && b / p == c && b % p == d
  {
    DivUnique(b, p, c, d);
    DivBelow(b, p, p);
  }

  lemma DoubleLeaf(p: nat, s: Place)
    requires p > 0 && IsLeaf(p, s) && |s| == 3
    ensures IndexOf(p, s) < MaxBlocks(p) && Locate(p, IndexOf(p, s)) == s
  {
    hide InTriple;
    var b := s[1] * p + s[2];
    Double(p, s[1], s[2], b);
    assert s == [DIRECT + 1, s[1], s[2]];
    assert p * p * p >= 0;
  }

  lemma TripleLeaf(p: nat, s: Place)
    requires p > 0 && IsLeaf(p, s) && |s| == 4
    ensures IndexOf(p, s) < MaxBlocks(p) && Locate(p, IndexOf(p, s)) == s
  {
    hide InTriple, FromDigits;
    Triple(p, s[1], s[2], s[3]);
    assert p * p >= 0;
    assert s == [DIRECT + 2, s[1], s[2], s[3]];
  }

  /** The other direction: Locate is one to one and reaches every leaf. */
  lemma LeafIndex(p: nat, s: Place)
    requires p > 0 && IsLeaf(p, s)
    ensures IndexOf(p, s) < MaxBlocks(p) && Locate(p, IndexOf(p, s)) == s
  {
    if |s| >= 3 {
      hide Locate, IndexOf, MaxBlocks;
      if |s| == 3 { DoubleLeaf(p, s); } else { TripleLeaf(p, s); }
    } else {
      hide InTriple;
      assert p * p >= 0 && p * p * p >= 0;
      assert s == if |s| == 1 then [s[0]] else [DIRECT, s[1]];
    }
  }

  /** The first file block of every level, and the last direct one. */
  lemma LevelStarts(p: nat)
    requires p > 0
    ensures Locate(p, 11) == [11] && Locate(p, 12) == [12, 0] && Locate(p, 12 + p) == [13, 0, 0]
    ensures Locate(p, 12 + p + p * p) == [14, 0, 0, 0]
  {
    assert p * p > 0 && p * p * p > 0;
    InTripleIs(p, 0, p * p);
  }

  /** s comes before t in the tree: at the first word where the two part, s takes the smaller one. */
  predicate Before(s: Place, t: Place) {
    s != [] && t != [] && (s[0] < t[0] || (s[0] == t[0] && Before(s[1..], t[1..])))
  }

  /** The file blocks lie in the tree in their order, so that the places are what LocateOf and LeafIndex leave no choice
      about. */
  lemma LocateInOrder(p: nat, i: nat, j: nat)
    requires p > 0 && i < j < MaxBlocks(p)
    ensures Before(Locate(p, i), Locate(p, j))
  {
    hide InTriple, Before;
    var a, b := i - DIRECT - p, j - DIRECT - p;
    var s, t := Locate(p, i), Locate(p, j);
    if b < 0 {
      RootOrder(s, t);
    } else if b < p * p {
      if a >= 0 { DigitOrder(p, a, b); }
      DoubleOrder(s, t);
    } else if a < p * p {
      InTripleIs(p, b - p * p, p * p);
      RootOrder(s, t);
    } else {
      TripleOrder(p, a - p * p, b - p * p);
    }
  }

  lemma RootOrder(s: Place, t: Place)
    requires s != [] && t != [] && (s[0] < t[0] || (s[0] == t[0] && |s| > 1 && |t| > 1 && s[1] < t[1]))
    ensures Before(s, t)
  {
  }

  lemma DoubleOrder(s: Place, t: Place)
    requires s != [] && |t| == 3
    requires s[0] < t[0] || (|s| == 3 && s[0] == t[0] && (s[1] < t[1] || (s[1] == t[1] && s[2] < t[2])))
    ensures Before(s, t)
  {
    if s[0] == t[0] { assert s[1..][0] == s[1] && t[1..][0] == t[1] && s[1..][1..][0] == s[2] && t[1..][1..][0] == t[2]; }
  }

  lemma DigitOrder(p: nat, a: nat, b: nat)
    requires p > 0 && a < b
    ensures 0 <= a / p && 0 <= a % p && (a / p < b / p || (a / p == b / p && a % p < b % p))
  {
    Ordered(a, b, p);
    DivMod(a, p);
    DivMod(b, p);
  }

  lemma TripleOrder(p: nat, a: nat, b: nat)
    requires p > 0 && a < b
    ensures Before(InTriple(p, a), InTriple(p, b))
  {
    hide InTriple, Before;
    var q := p * p;
    InTripleIs(p, a, q);
    InTripleIs(p, b, q);
    DigitOrder(q, a, b);
    var s, t := InTriple(p, a), InTriple(p, b);
    if a / q == b / q {
      DigitOrder(p, a % q, b % q);
      DoubleOrder(s[1..], t[1..]);
      SameHead(s, t);
    } else {
      RootOrder(s, t);
    }
  }

  lemma SameHead(s: Place, t: Place)
    requires s != [] && t != [] && s[0] == t[0] && Before(s[1..], t[1..])
    ensures Before(s, t)
  {
  }

  predicate FirstOfLevel(p: nat, i: nat) { i == DIRECT || i == DIRECT + p || i == DIRECT + p + p * p }

  lemma SameLevel(p: nat, i: nat)
    requires p > 0 && !FirstOfLevel(p, i) && i != MaxBlocks(p)
    ensures SetLocate(p, i) == Locate(p, i)
  {
    hide InTriple;
    var b := i - DIRECT - p;
    var s, t := p * p, p * p * p;
    if b >= 0 {
      assert b != s && b - s != t;
    }
  }

  /** get and set use the same place except at the first file block of each level and at the one behind the last level.
      There set writes over the word of inode->blocks that names the single table, or one word past the end of a table. */
  lemma SetAgrees(p: nat, i: nat)
    requires p > 0
    ensures SetLocate(p, i) == Locate(p, i) <==> !FirstOfLevel(p, i) && i != MaxBlocks(p)
    ensures i == DIRECT ==> IsTable(p, SetLocate(p, i))
    ensures i == DIRECT + p || i == DIRECT + p + p * p ==> !IsPlace(p, SetLocate(p, i))
    ensures i == MaxBlocks(p) ==> SetLocate(p, i) != [] && !IsPlace(p, SetLocate(p, i))
  {
    hide InTriple;
    if i <= MaxBlocks(p) {
      LocateOf(p, i);
    }
    if i == DIRECT {
      assert SetLocate(p, i) == [DIRECT];
    } else if i == DIRECT + p {
      assert SetLocate(p, i) == [DIRECT, p];
    } else if i == DIRECT + p + p * p {
      LastDouble(p);
      assert !IsPlace(p, [DIRECT + 1, p, 0]) by { assert [DIRECT + 1, p, 0][1] == p; }
    } else if i == MaxBlocks(p) {
      PastTriple(p);
      assert !IsPlace(p, [DIRECT + 2, p, 0, 0]) by { assert [DIRECT + 2, p, 0, 0][1] == p; }
    } else {
      SameLevel(p, i);
    }
  }

  lemma PastTriple(p: nat)
    requires p > 0
    ensures Locate(p, MaxBlocks(p)) == [] && SetLocate(p, MaxBlocks(p)) == [DIRECT + 2, p, 0, 0]
  {
    var s, t := p * p, p * p * p;
    assert s > 0 && t > 0 && t == p * s;
    DivUnique(t, s, p, 0);
  }

  lemma LastDouble(p: nat)
    requires p > 0
    ensures SetLocate(p, DIRECT + p + p * p) == [DIRECT + 1, p, 0]
  {
    var s := p * p;
    assert s > 0;
    DivUnique(s, p, p, 0);
  }

  // ---- The numbers recorded in the tree ---------------------------------------------------------

  function Parent(s: Place): Place
    requires |s| > 1
  {
    s[..|s| - 1]
  }

  lemma ParentIsTable(p: nat, s: Place)
    requires IsPlace(p, s) && |s| > 1
    ensures IsTable(p, Parent(s)) && Parent(s)[0] == s[0] && s[|s| - 1] < p
  {
  }

  /** The block number recorded at a place. */
  function Num(disk: seq<byte>, p: nat, blocks: seq<nat>, s: Place): nat
    requires |blocks| == ROOTS && IsPlace(p, s)
    decreases |s|
  {
    if |s| == 1 then blocks[s[0]]
    else Entry(disk, p, Num(disk, p, blocks, Parent(s)), s[|s| - 1])
  }

  /** All tables above a place are there. */
  predicate Reached(disk: seq<byte>, p: nat, blocks: seq<nat>, s: Place)
    requires |blocks| == ROOTS && IsPlace(p, s)
    decreases |s|, 0
  {
    |s| == 1 || Present(disk, p, blocks, Parent(s))
  }

  predicate Present(disk: seq<byte>, p: nat, blocks: seq<nat>, t: Place)
    requires |blocks| == ROOTS && IsPlace(p, t)
    decreases |t|, 1
  {
    && Reached(disk, p, blocks, t)
    && Num(disk, p, blocks, t) != 0
    && InDisk(disk, 4 * p, Num(disk, p, blocks, t))
  }

  /** All blocks that get reads on the way to a place are on the disk: block 0 stands in for a table that is missing. */
  predicate OnDisk(disk: seq<byte>, p: nat, blocks: seq<nat>, s: Place)
    requires |blocks| == ROOTS && IsPlace(p, s)
    decreases |s|
  {
    |s| == 1 || (OnDisk(disk, p, blocks, Parent(s)) && InDisk(disk, 4 * p, Num(disk, p, blocks, Parent(s))))
  }

  lemma {:induction false} ReachedOnDisk(disk: seq<byte>, p: nat, blocks: seq<nat>, s: Place)
    requires |blocks| == ROOTS && IsPlace(p, s) && Reached(disk, p, blocks, s)
    ensures OnDisk(disk, p, blocks, s)
    decreases |s|
  {
    if |s| > 1 {
      ReachedOnDisk(disk, p, blocks, Parent(s));
    }
  }

  /** No two tables that are there share a block. */
  ghost predicate Sound(disk: seq<byte>, p: nat, blocks: seq<nat>)
    requires |blocks| == ROOTS
  {
    forall t, u | IsTable(p, t) && IsTable(p, u) && t != u && Present(disk, p, blocks, t) && Present(disk, p, blocks, u) ::
      Num(disk, p, blocks, t) != Num(disk, p, blocks, u)
  }

  datatype Volume = Volume(disk: seq<byte>, blocks: seq<nat>)

  /** What set_DBlock_num leaves behind when it records d at a place whose tables are there. */
  function Store(v: Volume, p: nat, s: Place, d: nat): (r: Volume)
    requires |v.blocks| == ROOTS && IsPlace(p, s) && Reached(v.disk, p, v.blocks, s) && d < WORD_LIMIT
    ensures |r.blocks| == ROOTS && |r.disk| == |v.disk|
  {
    if |s| == 1 then v.(blocks := v.blocks[s[0] := d])
    else
      ParentIsTable(p, s);
      assert Present(v.disk, p, v.blocks, Parent(s));
      v.(disk := SetWord(v.disk, p, Num(v.disk, p, v.blocks, Parent(s)), s[|s| - 1], d))
  }

  /** Recording a number at a leaf changes that leaf and no other place of the tree. */
  lemma {:induction false} NumAfterStore(v: Volume, p: nat, s: Place, d: nat, q: Place)
    requires |v.blocks| == ROOTS && Sound(v.disk, p, v.blocks) && d < WORD_LIMIT
    requires IsLeaf(p, s) && Reached(v.disk, p, v.blocks, s)
    requires IsPlace(p, q) && Reached(v.disk, p, v.blocks, q)
    ensures var r := Store(v, p, s, d);
      Reached(r.disk, p, r.blocks, q) && Num(r.disk, p, r.blocks, q) == if q == s then d else Num(v.disk, p, v.blocks, q)
    decreases |q|
  {
    hide SetWord, Entry;
    var r := Store(v, p, s, d);
    if |q| > 1 {
      ParentIsTable(p, q);
      var t := Parent(q);
      NumAfterStore(v, p, s, d, t);
      if |s| > 1 {
        ParentIsTable(p, s);
        EntryAfterSet(v.disk, p, Num(v.disk, p, v.blocks, Parent(s)), s[|s| - 1], d, Num(v.disk, p, v.blocks, t), q[|q| - 1]);
        if t == Parent(s) && q[|q| - 1] == s[|s| - 1] {
          assert q == t + [q[|q| - 1]] && s == t + [q[|q| - 1]];
        }
      }
    }
  }

  /** Nothing comes into reach that was not there before. */
  lemma {:induction false} ReachedBefore(v: Volume, p: nat, s: Place, d: nat, q: Place)
    requires |v.blocks| == ROOTS && Sound(v.disk, p, v.blocks) && d < WORD_LIMIT
    requires IsLeaf(p, s) && Reached(v.disk, p, v.blocks, s) && IsPlace(p, q)
    requires var r := Store(v, p, s, d); Reached(r.disk, p, r.blocks, q)
    ensures Reached(v.disk, p, v.blocks, q)
    decreases |q|
  {
    hide Store;
    if |q| > 1 {
      ParentIsTable(p, q);
      ReachedBefore(v, p, s, d, Parent(q));
      NumAfterStore(v, p, s, d, Parent(q));
    }
  }

  lemma {:induction false} StoreKeepsSound(v: Volume, p: nat, s: Place, d: nat)
    requires |v.blocks| == ROOTS && Sound(v.disk, p, v.blocks) && d < WORD_LIMIT
    requires IsLeaf(p, s) && Reached(v.disk, p, v.blocks, s)
    ensures var r := Store(v, p, s, d); Sound(r.disk, p, r.blocks)
  {
    hide Store;
    var r := Store(v, p, s, d);
    forall t, u | IsTable(p, t) && IsTable(p, u) && t != u && Present(r.disk, p, r.blocks, t) && Present(r.disk, p, r.blocks, u)
      ensures Num(r.disk, p, r.blocks, t) != Num(r.disk, p, r.blocks, u)
    {
      ReachedBefore(v, p, s, d, t);
      ReachedBefore(v, p, s, d, u);
      NumAfterStore(v, p, s, d, t);
      NumAfterStore(v, p, s, d, u);
    }
  }

  // ---- get_DBlock_num and set_DBlock_num over file block numbers ---------------------------------

  predicate Mapped(v: Volume, p: nat, i: nat)
    requires |v.blocks| == ROOTS && p > 0
  {
    IsLeaf(p, Locate(p, i)) && Reached(v.disk, p, v.blocks, Locate(p, i))
  }

  /** The result of get_DBlock_num. */
  function DBlock(v: Volume, p: nat, i: nat): nat
    requires |v.blocks| == ROOTS && p > 0 && i < MaxBlocks(p)
  {
    LocateOf(p, i);
    Num(v.disk, p, v.blocks, Locate(p, i))
  }

  /** get after set: the new number at i, the old ones everywhere else, and the tables are as distinct as before. */
  lemma GetAfterSet(v: Volume, p: nat, i: nat, d: nat, j: nat)
    requires |v.blocks| == ROOTS && p > 0 && Sound(v.disk, p, v.blocks) && d < WORD_LIMIT
    requires i < MaxBlocks(p) && !FirstOfLevel(p, i) && Mapped(v, p, i)
    requires j < MaxBlocks(p) && Mapped(v, p, j)
    ensures SetLocate(p, i) == Locate(p, i)
    ensures var r := Store(v, p, SetLocate(p, i), d);
      && Sound(r.disk, p, r.blocks) && Mapped(r, p, j)
      && DBlock(r, p, j) == if i == j then d else DBlock(v, p, j)
  {
    hide Store, Locate, SetLocate, Num, Reached;
    SetAgrees(p, i);
    LocateOf(p, i);
    LocateOf(p, j);
    NumAfterStore(v, p, Locate(p, i), d, Locate(p, j));
    StoreKeepsSound(v, p, Locate(p, i), d);
  }

  /** At file block 12 set replaces the single table: afterwards get reads every block of that level, the one
      just set included, from the block whose number was to be recorded. */
  lemma SetTwelve(v: Volume, p: nat, d: nat, a: nat)
    requires |v.blocks| == ROOTS && p > 0 && d < WORD_LIMIT && a < p
    ensures Locate(p, DIRECT + a) == [DIRECT, a]
    ensures var r := Store(v, p, SetLocate(p, DIRECT), d);
      && r.disk == v.disk && DIRECT + a < MaxBlocks(p) && DBlock(r, p, DIRECT + a) == Entry(v.disk, p, d, a)
  {
    hide Entry;
    assert p * p >= 0 && p * p * p >= 0;
    var r := Store(v, p, [DIRECT], d);
    assert Parent([DIRECT, a]) == [DIRECT];
    assert Num(r.disk, p, r.blocks, [DIRECT]) == d;
  }

  // ---- Tables that are missing ------------------------------------------------------------------

  /** Writing a block that is no table moves no place. */
  lemma {:induction false} NumApart(v: Volume, p: nat, n: nat, b: seq<byte>, q: Place)
    requires |v.blocks| == ROOTS && InDisk(v.disk, 4 * p, n) && |b| == 4 * p
    requires forall t | IsTable(p, t) && Present(v.disk, p, v.blocks, t) :: Num(v.disk, p, v.blocks, t) != n
    requires IsPlace(p, q) && Reached(v.disk, p, v.blocks, q)
    ensures var d := SetBlock(v.disk, 4 * p, n, b);
      Num(d, p, v.blocks, q) == Num(v.disk, p, v.blocks, q) && Reached(d, p, v.blocks, q)
    decreases |q|
  {
    hide SetBlock, WordAt, BlockOf;
    if |q| > 1 {
      ParentIsTable(p, q);
      NumApart(v, p, n, b, Parent(q));
      BlockAfterSet(v.disk, 4 * p, n, b, Num(v.disk, p, v.blocks, Parent(q)));
    }
  }

  /** A block that has just been handed out: no table lies in it. */
  ghost predicate Unused(v: Volume, p: nat, n: nat)
    requires |v.blocks| == ROOTS
  {
    && 0 < n < WORD_LIMIT && InDisk(v.disk, 4 * p, n)
    && forall t | IsTable(p, t) && Present(v.disk, p, v.blocks, t) :: Num(v.disk, p, v.blocks, t) != n
  }

  lemma Below(v: Volume, p: nat, t: Place, k: nat)
    requires |v.blocks| == ROOTS && IsTable(p, t) && k < p
    ensures IsPlace(p, t + [k]) && Parent(t + [k]) == t
    ensures Num(v.disk, p, v.blocks, t + [k]) == Entry(v.disk, p, Num(v.disk, p, v.blocks, t), k)
    ensures Reached(v.disk, p, v.blocks, t + [k]) <==>
      Reached(v.disk, p, v.blocks, t) && Num(v.disk, p, v.blocks, t) != 0 && InDisk(v.disk, 4 * p, Num(v.disk, p, v.blocks, t))
    ensures OnDisk(v.disk, p, v.blocks, t + [k]) <==>
      OnDisk(v.disk, p, v.blocks, t) && InDisk(v.disk, 4 * p, Num(v.disk, p, v.blocks, t))
  {
    hide Entry, InDisk;
    assert Parent(t + [k]) == t;
    assert Present(v.disk, p, v.blocks, t) <==>
      Reached(v.disk, p, v.blocks, t) && Num(v.disk, p, v.blocks, t) != 0 && InDisk(v.disk, 4 * p, Num(v.disk, p, v.blocks, t));
  }

  /** What the bytes of table t become when block n has been handed out for the missing table under its word c: the
      buffer with the new entry is written to block n, and not back to t. */
  function WithEntry(v: Volume, p: nat, t: Place, c: nat, n: nat): (r: seq<byte>)
    requires |v.blocks| == ROOTS && IsTable(p, t) && Present(v.disk, p, v.blocks, t) && c < p && n < WORD_LIMIT
    ensures |r| == 4 * p
  {
    Patch(BlockOf(v.disk, 4 * p, Num(v.disk, p, v.blocks, t)), 4 * c, Encode(n))
  }

  lemma WordWithEntry(v: Volume, p: nat, t: Place, c: nat, n: nat, k: nat)
    requires |v.blocks| == ROOTS && IsTable(p, t) && Present(v.disk, p, v.blocks, t) && c < p && n < WORD_LIMIT && k < p
    ensures WordAt(WithEntry(v, p, t, c, n), k) == if k == c then n else Entry(v.disk, p, Num(v.disk, p, v.blocks, t), k)
  {
    hide Encode, Patch, WordAt, Num;
    WordOfPatch(BlockOf(v.disk, 4 * p, Num(v.disk, p, v.blocks, t)), c, k, n);
  }

  lemma EntryApart(disk: seq<byte>, p: nat, n: nat, b: seq<byte>, m: nat, k: nat)
    requires InDisk(disk, 4 * p, n) && |b| == 4 * p && m != n && k < p
    ensures Entry(SetBlock(disk, 4 * p, n, b), p, m, k) == Entry(disk, p, m, k)
  {
    hide SetBlock, WordAt, BlockOf;
    if InDisk(disk, 4 * p, m) { BlockAfterSet(disk, 4 * p, n, b, m); }
  }

  lemma Root(v: Volume, p: nat, k: nat)
    requires |v.blocks| == ROOTS && k < ROOTS
    ensures IsPlace(p, [k]) && Num(v.disk, p, v.blocks, [k]) == v.blocks[k]
    ensures Reached(v.disk, p, v.blocks, [k]) && OnDisk(v.disk, p, v.blocks, [k])
  {
  }

  /** set_DBlock_num for word d of the missing table under word c of table t. */
  function StoreInNewTable(v: Volume, p: nat, t: Place, c: nat, d: nat, n: nat, x: nat): Volume
    requires |v.blocks| == ROOTS && IsTable(p, t) && Present(v.disk, p, v.blocks, t) && c < p && d < p
    requires n < WORD_LIMIT && x < WORD_LIMIT && InDisk(v.disk, 4 * p, n)
  {
    v.(disk := SetBlock(v.disk, 4 * p, n, Patch(WithEntry(v, p, t, c, n), 4 * d, Encode(x))))
  }

  /** The new table is lost, at the double and at the triple level: get goes on reading block 0 in its place, and set
      is undone unless that block happens to hold the number already. */
  lemma NewTableIsLost(v: Volume, p: nat, t: Place, c: nat, d: nat, n: nat, x: nat)
    requires |v.blocks| == ROOTS && IsTable(p, t) && IsTable(p, t + [c]) && IsLeaf(p, t + [c] + [d]) && c < p && d < p
    requires Present(v.disk, p, v.blocks, t) && Num(v.disk, p, v.blocks, t + [c]) == 0 && Unused(v, p, n) && x < WORD_LIMIT
    ensures var r, s := StoreInNewTable(v, p, t, c, d, n, x), t + [c] + [d];
      Num(r.disk, p, r.blocks, s) == Num(v.disk, p, v.blocks, s) == Entry(v.disk, p, 0, d)
  {
    hide SetBlock, Encode, Patch, WordAt, BlockOf, WithEntry, Num, Reached;
    var b := Patch(WithEntry(v, p, t, c, n), 4 * d, Encode(x));
    var r := StoreInNewTable(v, p, t, c, d, n, x);
    Below(v, p, t, c);
    Below(v, p, t + [c], d);
    Below(r, p, t + [c], d);
    NumApart(v, p, n, b, t + [c]);
    if InDisk(v.disk, 4 * p, 0) { BlockAfterSet(v.disk, 4 * p, n, b, 0); }
  }

  /** set_DBlock_num below word e of the triple tables when the table under that word is missing: block n gets the
      bytes of the root table, and its word f is then taken for the next table, or a block m is handed out for that
      in the same way. */
  function StoreInNewSecond(v: Volume, p: nat, e: nat, f: nat, g: nat, n: nat, m: nat, x: nat): Volume
    requires |v.blocks| == ROOTS && e < p && f < p && g < p && n < WORD_LIMIT && m < WORD_LIMIT && x < WORD_LIMIT
    requires IsTable(p, [DIRECT + 2]) && Present(v.disk, p, v.blocks, [DIRECT + 2])
    requires InDisk(v.disk, 4 * p, n) && InDisk(v.disk, 4 * p, m)
    requires InDisk(v.disk, 4 * p, WordAt(WithEntry(v, p, [DIRECT + 2], e, n), f))
  {
    var temp := WithEntry(v, p, [DIRECT + 2], e, n);
    var disk := SetBlock(v.disk, 4 * p, n, temp);
    var w := WordAt(temp, f);
    if w == 0 then v.(disk := SetBlock(disk, 4 * p, m, Patch(Patch(temp, 4 * f, Encode(m)), 4 * g, Encode(x))))
    else v.(disk := SetWord(disk, p, w, g, x))
  }

  /** Then get goes on reading block 0 for the table at e. And if there is a table at f, the number has been recorded in
      it, where it now stands for a table of other file blocks. */
  lemma NewSecondIsLost(v: Volume, p: nat, e: nat, f: nat, g: nat, n: nat, m: nat, x: nat)
    requires |v.blocks| == ROOTS && e < p && f < p && g < p && x < WORD_LIMIT && Sound(v.disk, p, v.blocks)
    requires IsTable(p, [DIRECT + 2]) && Present(v.disk, p, v.blocks, [DIRECT + 2])
    requires Unused(v, p, n) && Unused(v, p, m) && n != m
    requires IsTable(p, [DIRECT + 2] + [e]) && Num(v.disk, p, v.blocks, [DIRECT + 2] + [e]) == 0
    requires InDisk(v.disk, 4 * p, WordAt(WithEntry(v, p, [DIRECT + 2], e, n), f))
    ensures IsLeaf(p, [DIRECT + 2] + [e] + [f] + [g]) && IsPlace(p, [DIRECT + 2] + [f] + [g])
    ensures var r, s := StoreInNewSecond(v, p, e, f, g, n, m, x), [DIRECT + 2] + [e] + [f] + [g];
      && Num(r.disk, p, r.blocks, [DIRECT + 2] + [e]) == 0
      && Num(r.disk, p, r.blocks, s) == Entry(r.disk, p, Entry(r.disk, p, 0, f), g)
      && (e != f && Num(v.disk, p, v.blocks, [DIRECT + 2] + [f]) != 0 ==> Num(r.disk, p, r.blocks, [DIRECT + 2] + [f] + [g]) == x)
  {
    hide SetBlock, SetWord, Encode, Patch, WordAt, WithEntry, Num, Reached, Entry;
    var root, top := [DIRECT + 2], v.blocks[DIRECT + 2];
    var r := StoreInNewSecond(v, p, e, f, g, n, m, x);
    Root(v, p, DIRECT + 2);
    Root(r, p, DIRECT + 2);
    Below(v, p, root, f);
    Below(v, p, root, e);
    Below(r, p, root, e);
    Below(r, p, root, f);
    Below(r, p, root + [e], f);
    Below(r, p, root + [f], g);
    Below(r, p, root + [e] + [f], g);
    SecondKeepsRoot(v, p, e, f, g, n, m, x, e);
    SecondKeepsRoot(v, p, e, f, g, n, m, x, f);
    var temp := WithEntry(v, p, root, e, n);
    WordWithEntry(v, p, root, e, n, f);
    if WordAt(temp, f) != 0 && e != f {
      EntryAfterSet(SetBlock(v.disk, 4 * p, n, temp), p, WordAt(temp, f), g, x, WordAt(temp, f), g);
    }
  }

  /** The root table itself stays as it was. */
  lemma SecondKeepsRoot(v: Volume, p: nat, e: nat, f: nat, g: nat, n: nat, m: nat, x: nat, k: nat)
    requires |v.blocks| == ROOTS && e < p && f < p && g < p && x < WORD_LIMIT && Sound(v.disk, p, v.blocks) && k < p
    requires IsTable(p, [DIRECT + 2]) && Present(v.disk, p, v.blocks, [DIRECT + 2])
    requires Unused(v, p, n) && Unused(v, p, m)
    requires InDisk(v.disk, 4 * p, WordAt(WithEntry(v, p, [DIRECT + 2], e, n), f))
    ensures var r := StoreInNewSecond(v, p, e, f, g, n, m, x);
      Entry(r.disk, p, v.blocks[DIRECT + 2], k) == Entry(v.disk, p, v.blocks[DIRECT + 2], k)
  {
    hide SetBlock, SetWord, Encode, Patch, WordAt, WithEntry, Num, Reached, Entry;
    var root, top, temp := [DIRECT + 2], v.blocks[DIRECT + 2], WithEntry(v, p, [DIRECT + 2], e, n);
    Root(v, p, DIRECT + 2);
    WordWithEntry(v, p, root, e, n, f);
    var disk, w := SetBlock(v.disk, 4 * p, n, temp), WordAt(temp, f);
    EntryApart(v.disk, p, n, temp, top, k);
    if w == 0 {
      EntryApart(disk, p, m, Patch(Patch(temp, 4 * f, Encode(m)), 4 * g, Encode(x)), top, k);
    } else {
      if f != e {
        Below(v, p, root, f);
        assert IsTable(p, root + [f]) && Present(v.disk, p, v.blocks, root + [f]);
      }
      assert w != top;
      EntryAfterSet(disk, p, w, g, x, top, k);
    }
  }

  /** A double or triple root table that is missing becomes block n as it stands. The number goes wherever the old bytes
      of n lead, and those bytes go on to be taken for the table numbers of the whole level. */
  lemma NewRootIsStale(v: Volume, p: nat, n: nat, s: Place, x: nat, e: nat)
    requires |v.blocks| == ROOTS && IsLeaf(p, s) && |s| >= 3 && n < WORD_LIMIT && x < WORD_LIMIT && e < p
    requires var w := v.(blocks := v.blocks[s[0] := n]);
      Reached(w.disk, p, w.blocks, s) && Num(w.disk, p, w.blocks, Parent(s)) != n
    ensures IsPlace(p, [s[0]] + [e])
    ensures var w := v.(blocks := v.blocks[s[0] := n]); var r := Store(w, p, s, x);
      && Num(r.disk, p, r.blocks, [s[0]] + [e]) == Entry(v.disk, p, n, e)
      && Entry(r.disk, p, Num(w.disk, p, w.blocks, Parent(s)), s[|s| - 1]) == x
  {
    hide SetWord, Entry, InDisk;
    var w := v.(blocks := v.blocks[s[0] := n]);
    var r := Store(w, p, s, x);
    ParentIsTable(p, s);
    Root(w, p, s[0]);
    Root(r, p, s[0]);
    Below(r, p, [s[0]], e);
    var t := Num(w.disk, p, w.blocks, Parent(s));
    assert Present(w.disk, p, w.blocks, Parent(s));
    EntryAfterSet(v.disk, p, t, s[|s| - 1], x, n, e);
    EntryAfterSet(v.disk, p, t, s[|s| - 1], x, t, s[|s| - 1]);
  }

  /** At the single level the number just recorded is there, and every other file block of the level is stale. */
  lemma NewSingle(v: Volume, p: nat, n: nat, a: nat, x: nat, b: nat)
    requires |v.blocks| == ROOTS && a < p && b < p && InDisk(v.disk, 4 * p, n) && x < WORD_LIMIT
    ensures DIRECT + b < MaxBlocks(p)
    ensures var r := Volume(SetWord(v.disk, p, n, a, x), v.blocks[DIRECT := n]);
      DBlock(r, p, DIRECT + b) == if b == a then x else Entry(v.disk, p, n, b)
  {
    hide SetWord, Entry;
    assert p * p >= 0 && p * p * p >= 0;
    var r := Volume(SetWord(v.disk, p, n, a, x), v.blocks[DIRECT := n]);
    assert Locate(p, DIRECT + b) == [DIRECT, b] && Parent([DIRECT, b]) == [DIRECT];
    Root(r, p, DIRECT);
    EntryAfterSet(v.disk, p, n, a, x, n, b);
  }
}
