/** What the mount tree of the VFS means: a prefix-closed map from token sequences to the file mounted there, if any
    (src/fs/vfs.c:294-492). */
module MountTable {

  import opened Options

  type File = nat                               // a vfs_node*
  type Path = seq<string>
  type Mounts = map<Path, Option<File>>

  const SEPARATOR := '/'

  // ---- strsep ---------------------------------------------------------------------------------

  /** The first separator of s at or after pos, or the end of s. */
  function NextCut(s: string, pos: nat): (e: nat)
    requires pos <= |s|
    ensures pos <= e <= |s|
    ensures SEPARATOR !in s[pos..e] && (e < |s| ==> s[e] == SEPARATOR)
    decreases |s| - pos
  {
    if pos == |s| then pos
    else if s[pos] == SEPARATOR then pos
    else
      assert s[pos..NextCut(s, pos + 1)] == [s[pos]] + s[pos + 1..NextCut(s, pos + 1)];
      NextCut(s, pos + 1)
  }

  /** The pointer that strsep advances: a position in the string, or NULL. */
  predicate InString(s: string, pos: Option<nat>) { pos.Some? ==> pos.value <= |s| }

  function After(s: string, pos: nat): (r: Option<nat>)
    requires pos <= |s|
    ensures InString(s, r) && (r.Some? ==> r.value > pos)
  {
    var e := NextCut(s, pos);
    if e < |s| then Some(e + 1) else None
  }

  /** Every token that strsep returns from a position on. */
  function Tokens(s: string, pos: Option<nat>): Path
    requires InString(s, pos)
    decreases if pos.Some? then 1 + |s| - pos.value else 0
  {
    if pos.None? then [] else [s[pos.value..NextCut(s, pos.value)]] + Tokens(s, After(s, pos.value))
  }

  lemma TokensStep(s: string, pos: Option<nat>)
    requires InString(s, pos)
    ensures pos.None? ==> Tokens(s, pos) == []
    ensures pos.Some? ==> Tokens(s, pos) == [s[pos.value..NextCut(s, pos.value)]] + Tokens(s, After(s, pos.value))
  {
  }

  /** The tokens with separators between them. */
  function Join(ts: Path): string
    requires ts != []
  {
    if |ts| == 1 then ts[0] else ts[0] + [SEPARATOR] + Join(ts[1..])
  }

  /** Cutting loses nothing: joined again, the tokens are the string they were cut from. */
  lemma {:induction false} JoinTokens(s: string, pos: nat)
    requires pos <= |s|
    ensures Tokens(s, Some(pos)) != [] && Join(Tokens(s, Some(pos))) == s[pos..]
    decreases |s| - pos
  {
    hide NextCut, Tokens, Join;
    var e := NextCut(s, pos);
    TokensStep(s, Some(pos));
    if e < |s| {
      JoinTokens(s, e + 1);
      JoinCons(s[pos..e], Tokens(s, Some(e + 1)));
      SliceAround(s, pos, e);
    } else {
      TokensStep(s, None);
      JoinOne(s[pos..e]);
      assert s[pos..e] == s[pos..];
    }
  }

  lemma SliceAround(s: string, pos: nat, e: nat)
    requires pos <= e < |s|
    ensures s[pos..] == s[pos..e] + [s[e]] + s[e + 1..]
  {
  }

  lemma JoinOne(t: string)
    ensures [t] + [] == [t] && Join([t]) == t
  {
  }

  lemma JoinCons(t: string, ts: Path)
    requires ts != []
    ensures Join([t] + ts) == t + [SEPARATOR] + Join(ts)
  {
    assert ([t] + ts)[1..] == ts;
  }

  lemma {:induction false} TokensHaveNoSeparator(s: string, pos: Option<nat>)
    requires InString(s, pos)
    ensures forall i :: 0 <= i < |Tokens(s, pos)| ==> SEPARATOR !in Tokens(s, pos)[i]
    decreases if pos.Some? then 1 + |s| - pos.value else 0
  {
    if pos.Some? {
      TokensHaveNoSeparator(s, After(s, pos.value));
    }
  }

  /** The walks stop at the first empty token. */
  function Stop(ts: Path): (k: nat)
    ensures k <= |ts| && "" !in ts[..k] && (k < |ts| ==> ts[k] == "")
  {
    if ts == [] || ts[0] == "" then 0
    else
      assert ts[..1 + Stop(ts[1..])] == [ts[0]] + ts[1..][..Stop(ts[1..])];
      1 + Stop(ts[1..])
  }

  /** The node that a mount or unmount of this path is about. */
  function Target(ts: Path): (p: Path)
    ensures "" !in p
  {
    ts[..Stop(ts)]
  }

  /** One turn of the walks. */
  lemma TargetStep(s: string, pos: Option<nat>)
    requires InString(s, pos)
    ensures pos.None? || NextCut(s, pos.value) == pos.value ==> Target(Tokens(s, pos)) == []
    ensures pos.Some? && NextCut(s, pos.value) > pos.value ==>
      Target(Tokens(s, pos)) == [s[pos.value..NextCut(s, pos.value)]] + Target(Tokens(s, After(s, pos.value)))
  {
    if pos.Some? {
      var t, ts := s[pos.value..NextCut(s, pos.value)], Tokens(s, After(s, pos.value));
      assert ([t] + ts)[1..] == ts;
      assert t != "" ==> ([t] + ts)[..1 + Stop(ts)] == [t] + ts[..Stop(ts)];
    }
  }

  // ---- The map --------------------------------------------------------------------------------

  ghost predicate Closed(m: Mounts) {
    [] in m && (forall q :: q in m && |q| > 0 ==> q[..|q| - 1] in m) && (forall q :: q in m ==> "" !in q)
  }

  function FileAt(m: Mounts, p: Path): Option<File> { if p in m then m[p] else None }

  predicate Prefix(q: Path, p: Path) { |q| <= |p| && q == p[..|q|] }

  function Grown(m: Mounts, p: Path): (r: Mounts)
    ensures forall q :: q in r <==> q in m || Prefix(q, p)
    ensures forall q :: FileAt(r, q) == FileAt(m, q)
  {
    var prefixes := set k: nat | k <= |p| :: p[..k];
    assert forall q :: Prefix(q, p) ==> q == p[..|q|] && |q| <= |p|;
    assert forall q :: q in prefixes <==> Prefix(q, p);
    map q | q in m.Keys + prefixes :: FileAt(m, q)
  }

  /** VFS_mount: the nodes of the path are made, and the file is set unless there is one already. */
  function Mount(m: Mounts, p: Path, f: File): Mounts {
    if FileAt(m, p).Some? then Grown(m, p) else Grown(m, p)[p := Some(f)]
  }

  /** VFS_unmount: the nodes of the path are made here too, and the file is cleared. */
  function Unmount(m: Mounts, p: Path): Mounts { Grown(m, p)[p := None] }

  /** How far the tree follows a path. */
  function Depth(m: Mounts, q: Path): (d: nat)
    requires [] in m
    ensures d <= |q| && q[..d] in m
    ensures d < |q| ==> q[..d + 1] !in m
  {
    DepthFrom(m, q, 0)
  }

  function DepthFrom(m: Mounts, q: Path, k: nat): (d: nat)
    requires k <= |q| && q[..k] in m
    ensures k <= d <= |q| && q[..d] in m
    ensures d < |q| ==> q[..d + 1] !in m
    decreases |q| - k
  {
    if k < |q| && q[..k + 1] in m then DepthFrom(m, q, k + 1) else k
  }

  /** get_mountpoint: the file of the deepest node along the path, which may be none. */
  function Lookup(m: Mounts, q: Path): Option<File>
    requires [] in m
  {
    m[q[..Depth(m, q)]]
  }

  lemma {:induction false} ClosedBelow(m: Mounts, p: Path, k: nat)
    requires Closed(m) && p in m && k <= |p|
    ensures p[..k] in m
    decreases |p| - k
  {
    if k < |p| {
      ClosedBelow(m, p, k + 1);
      assert p[..k + 1][..k] == p[..k];
    } else {
      assert p[..k] == p;
    }
  }

  /** Depth is the only prefix length at which a closed tree stops. */
  lemma DepthIs(m: Mounts, q: Path, d: nat)
    requires Closed(m) && d <= |q| && q[..d] in m && (d < |q| ==> q[..d + 1] !in m)
    ensures Depth(m, q) == d
  {
    var e := Depth(m, q);
    if e > d {
      assert q[..e][..d + 1] == q[..d + 1];
      ClosedBelow(m, q[..e], d + 1);
    } else if e < d {
      assert q[..d][..e + 1] == q[..e + 1];
      ClosedBelow(m, q[..d], e + 1);
    }
  }

  lemma GrownClosed(m: Mounts, p: Path)
    requires Closed(m) && "" !in p
    ensures Closed(Grown(m, p)) && Closed(Unmount(m, p)) && forall f: File :: Closed(Mount(m, p, f))
  {
    var r := Grown(m, p);
    forall q | q in r && |q| > 0
      ensures q[..|q| - 1] in r
    {
      if Prefix(q, p) { assert Prefix(q[..|q| - 1], p); }
    }
    assert Prefix(p, p) && Prefix([], p);
  }

  /** How many tokens two paths share. */
  function Shared(p: Path, q: Path): (k: nat)
    ensures k <= |p| && k <= |q| && p[..k] == q[..k]
    ensures k < |p| && k < |q| ==> p[k] != q[k]
  {
    if p != [] && q != [] && p[0] == q[0] then
      var k := Shared(p[1..], q[1..]);
      assert p[..k + 1] == [p[0]] + p[1..][..k] && q[..k + 1] == [q[0]] + q[1..][..k];
      k + 1
    else 0
  }

  /** After the nodes of p have been made, a path is followed at least as far as it agrees with p. */
  lemma Roots(m: Mounts)
    requires Closed(m)
    ensures [] in m
  {
  }

  lemma DepthAfter(m: Mounts, p: Path, q: Path)
    requires Closed(m) && "" !in p
    ensures var d, k := Depth(m, q), Shared(p, q); Depth(Grown(m, p), q) == if d < k then k else d
  {
    hide Depth, Shared, Prefix, Closed;
    Roots(m);
    var d, k, r := Depth(m, q), Shared(p, q), Grown(m, p);
    assert Closed(r) by { GrownClosed(m, p); }
    var e := if d < k then k else d;
    SharedPrefix(p, q, k);
    if e < |q| {
      SharedPrefix(p, q, e + 1);
      NotBelow(m, q, e + 1);
    }
    DepthIs(r, q, e);
  }

  lemma NotBelow(m: Mounts, q: Path, e: nat)
    requires Closed(m) && Depth(m, q) < e <= |q|
    ensures q[..e] !in m
  {
    var d := Depth(m, q);
    assert q[..e][..d + 1] == q[..d + 1];
    if q[..e] in m {
      ClosedBelow(m, q[..e], d + 1);
    }
  }

  lemma SharedPrefix(p: Path, q: Path, k: nat)
    requires k <= |q|
    ensures Prefix(q[..k], p) <==> k <= Shared(p, q)
  {
    var s := Shared(p, q);
    if k <= s {
      assert p[..k] == p[..s][..k] && q[..k] == q[..s][..k];
    } else {
      assert q[..k][s] == q[s] && (k <= |p| ==> p[..k][s] == p[s]);
    }
  }

  // ---- What mounting does to lookups ----------------------------------------------------------

  /** A lookup after a mount: the new file where the path goes through its node and no further node of the tree,
      nothing where the walk now ends at an empty node made for the mount, and the old result elsewhere. So a mount
      hides the file system that used to serve q exactly when q agrees with p for longer than the tree followed q
      before, without reaching p. */
  lemma LookupAfterMount(m: Mounts, p: Path, f: File, q: Path)
    requires Closed(m) && "" !in p && FileAt(m, p) == None
    ensures [] in Mount(m, p, f)
    ensures var d, k := Depth(m, q), Shared(p, q);
      Lookup(Mount(m, p, f), q) ==
        if d <= k == |p| then Some(f)
        else if d < k then None
        else Lookup(m, q)
  {
    hide Depth, Shared;
    var r, d, k := Mount(m, p, f), Depth(m, q), Shared(p, q);
    GrownClosed(m, p);
    DepthAfter(m, p, q);
    var e := if d < k then k else d;
    SameKeys(Grown(m, p), r, q);
    if q[..e] == p {
      SharedPrefix(p, q, e);
    } else if d < k {
      SharedPrefix(p, q, k);
      NotBelow(m, q, k);
    }
  }

  lemma SameKeys(a: Mounts, b: Mounts, q: Path)
    requires Closed(a) && Closed(b) && forall x :: x in a <==> x in b
    ensures Depth(a, q) == Depth(b, q)
  {
    DepthIs(b, q, Depth(a, q));
  }

  /** The same for an unmount: it too can hide a file system, because it makes the nodes of its path. */
  lemma LookupAfterUnmount(m: Mounts, p: Path, q: Path)
    requires Closed(m) && "" !in p
    ensures [] in Unmount(m, p)
    ensures var d, k := Depth(m, q), Shared(p, q);
      Lookup(Unmount(m, p), q) == if d <= k == |p| || d < k then None else Lookup(m, q)
  {
    hide Depth, Shared;
    var r, d, k := Unmount(m, p), Depth(m, q), Shared(p, q);
    GrownClosed(m, p);
    DepthAfter(m, p, q);
    var e := if d < k then k else d;
    SameKeys(Grown(m, p), r, q);
    if q[..e] == p {
      SharedPrefix(p, q, e);
    } else if d < k {
      SharedPrefix(p, q, k);
      NotBelow(m, q, k);
    }
  }

  // ---- Runs -----------------------------------------------------------------------------------

  datatype Op = DoMount(p: Path, f: File) | DoUnmount(p: Path)

  function Apply(m: Mounts, op: Op): Mounts {
    match op
    case DoMount(p, f) => Mount(m, p, f)
    case DoUnmount(p) => Unmount(m, p)
  }

  function Run(m: Mounts, ops: seq<Op>): Mounts { if ops == [] then m else Apply(Run(m, ops[..|ops| - 1]), ops[|ops| - 1]) }

  /** The slot of one path: a mount fills it when it is empty, an unmount empties it, and operations on other paths
      do not touch it. */
  function Slot(was: Option<File>, ops: seq<Op>, p: Path): Option<File> {
    if ops == [] then was
    else
      var before, op := Slot(was, ops[..|ops| - 1], p), ops[|ops| - 1];
      if op.p != p then before else if op.DoUnmount? then None else if before.None? then Some(op.f) else before
  }

  lemma ApplyIs(m: Mounts, op: Op, q: Path)
    requires Closed(m) && "" !in op.p
    ensures Closed(Apply(m, op))
    ensures q in Apply(m, op) <==> q in m || Prefix(q, op.p)
    ensures op.p != q ==> FileAt(Apply(m, op), q) == FileAt(m, q)
    ensures op.p == q && op.DoUnmount? ==> FileAt(Apply(m, op), q) == None
    ensures op.p == q && op.DoMount? ==> FileAt(Apply(m, op), q) == if FileAt(m, q) == None then Some(op.f) else FileAt(m, q)
  {
    GrownClosed(m, op.p);
    assert Prefix(op.p, op.p);
  }

  predicate Touched(ops: seq<Op>, q: Path) { exists i :: 0 <= i < |ops| && Prefix(q, ops[i].p) }

  lemma TouchedStep(ops: seq<Op>, q: Path)
    requires ops != []
    ensures Touched(ops, q) <==> Touched(ops[..|ops| - 1], q) || Prefix(q, ops[|ops| - 1].p)
  {
    var n := |ops| - 1;
    if Touched(ops[..n], q) {
      var i :| 0 <= i < n && Prefix(q, ops[..n][i].p);
      assert ops[i] == ops[..n][i];
    }
    if Touched(ops, q) && !Prefix(q, ops[n].p) {
      var i :| 0 <= i < |ops| && Prefix(q, ops[i].p);
      assert ops[..n][i] == ops[i];
    }
  }

  /** Over every run each path's file depends on the operations on that very path alone, the tree stays closed under
      prefixes, and it has grown by the prefixes of the paths used and nothing else. */
  lemma {:induction false} RunIs(m: Mounts, ops: seq<Op>, q: Path)
    requires Closed(m) && forall i :: 0 <= i < |ops| ==> "" !in ops[i].p
    ensures Closed(Run(m, ops))
    ensures FileAt(Run(m, ops), q) == Slot(FileAt(m, q), ops, q)
    ensures q in Run(m, ops) <==> q in m || Touched(ops, q)
  {
    hide Closed, Apply, FileAt, Touched, Prefix;
    if ops == [] {
      assert !Touched(ops, q) by { NotTouched(q); }
    } else {
      var n := |ops| - 1;
      RunIs(m, ops[..n], q);
      ApplyIs(Run(m, ops[..n]), ops[n], q);
      TouchedStep(ops, q);
    }
  }

  lemma NotTouched(q: Path)
    ensures !Touched([], q)
  {
  }

  // ---- The map below a child ------------------------------------------------------------------

  function Sub(m: Mounts, n: string): (r: Mounts)
    ensures forall q :: q in r <==> [n] + q in m
    ensures forall q :: q in r ==> r[q] == m[[n] + q]
  {
    var keys := set q | q in m && |q| > 0 && q[0] == n :: q[1..];
    assert forall q :: q in m && |q| > 0 && q[0] == n ==> [n] + q[1..] == q;
    assert forall q: Path :: ([n] + q)[1..] == q;
    map q | q in keys :: m[[n] + q]
  }

  lemma PrefixBelow(n: string, q: Path, k: string, p: Path)
    ensures Prefix([n] + q, [k] + p) <==> n == k && Prefix(q, p)
    ensures [n] + q == [k] + p <==> n == k && q == p
  {
    assert ([n] + q)[1..] == q && ([k] + p)[1..] == p;
    if Prefix([n] + q, [k] + p) {
      assert ([n] + q)[0] == ([k] + p)[0];
      assert q == ([k] + p)[..|q| + 1][1..] == p[..|q|];
    }
    if n == k && Prefix(q, p) {
      assert ([k] + p)[..|q| + 1] == [k] + p[..|q|];
    }
  }

  lemma SubGrown(m: Mounts, k: string, p: Path, n: string)
    ensures Sub(Grown(m, [k] + p), n) == if n == k then Grown(Sub(m, n), p) else Sub(m, n)
  {
    hide Grown, Sub, Prefix;
    var l, r := Sub(Grown(m, [k] + p), n), if n == k then Grown(Sub(m, n), p) else Sub(m, n);
    forall q
      ensures q in l <==> q in r
      ensures q in l ==> l[q] == r[q]
    {
      PrefixBelow(n, q, k, p);
      assert FileAt(Grown(m, [k] + p), [n] + q) == FileAt(m, [n] + q);
      assert n == k ==> FileAt(Grown(Sub(m, n), p), q) == FileAt(Sub(m, n), q);
    }
  }

  lemma SubSet(m: Mounts, k: string, p: Path, x: Option<File>, n: string)
    ensures Sub(m[[k] + p := x], n) == if n == k then Sub(m, n)[p := x] else Sub(m, n)
  {
    hide Sub;
    var l, r := Sub(m[[k] + p := x], n), if n == k then Sub(m, n)[p := x] else Sub(m, n);
    forall q
      ensures q in l <==> q in r
      ensures q in l ==> l[q] == r[q]
    {
      PrefixBelow(n, q, k, p);
    }
  }

  /** Mounting and unmounting below a child is mounting and unmounting in the child's own map. */
  lemma SubMount(m: Mounts, k: string, p: Path, f: File, n: string)
    ensures Sub(Mount(m, [k] + p, f), n) == if n == k then Mount(Sub(m, n), p, f) else Sub(m, n)
    ensures Sub(Unmount(m, [k] + p), n) == if n == k then Unmount(Sub(m, n), p) else Sub(m, n)
  {
    hide Grown, Sub;
    SubGrown(m, k, p, n);
    SubSet(Grown(m, [k] + p), k, p, Some(f), n);
    SubSet(Grown(m, [k] + p), k, p, None, n);
    assert n == k ==> FileAt(Sub(m, n), p) == FileAt(m, [k] + p);
  }

  /** What an operation of either kind does to the map of a node, for a path with at least one token. */
  lemma BelowChild(m: Mounts, op: Op, n: string, p: Path)
    requires [] in m && op.p == [n] + p
    ensures var r := Apply(m, op);
      && [] in r && r[[]] == m[[]]
      && (forall q :: q in r && |q| > 0 ==> q[0] == n || q in m)
      && (forall k :: Sub(r, k) == if k == n then Apply(Sub(m, n), Moved(op, p)) else Sub(m, k))
  {
    hide Sub;
    var r := Apply(m, op);
    forall q | q in r && |q| > 0
      ensures q[0] == n || q in m
    {
      assert Prefix(q, op.p) ==> q[0] == op.p[0];
    }
    assert Prefix([], op.p);
    assert FileAt(Grown(m, op.p), []) == FileAt(m, []);
    forall k
      ensures Sub(r, k) == if k == n then Apply(Sub(m, n), Moved(op, p)) else Sub(m, k)
    {
      SubMount(m, n, p, if op.DoMount? then op.f else 0, k);
    }
  }

  function Moved(op: Op, p: Path): Op { if op.DoMount? then DoMount(p, op.f) else DoUnmount(p) }

  /** Making the first node ahead of time makes no difference. */
  lemma NodeAhead(m: Mounts, op: Op)
    requires |op.p| > 0 && op.p[..1] !in m
    ensures Apply(m[op.p[..1] := None], op) == Apply(m, op)
  {
    hide Prefix;
    var a, b := Grown(m[op.p[..1] := None], op.p), Grown(m, op.p);
    assert Prefix(op.p[..1], op.p) by { FirstPrefix(op.p); }
    forall q
      ensures q in a <==> q in b
      ensures q in a ==> a[q] == b[q]
    {
      assert FileAt(a, q) == FileAt(m, q) == FileAt(b, q);
    }
    assert a == b;
    assert FileAt(m[op.p[..1] := None], op.p) == FileAt(m, op.p);
  }

  lemma FirstPrefix(p: Path)
    requires |p| > 0
    ensures Prefix(p[..1], p)
  {
  }

  lemma SubNone(m: Mounts, n: string, k: string)
    ensures Sub(m[[n] := None], k) == if n == k then Sub(m, k)[[] := None] else Sub(m, k)
  {
    SubSet(m, n, [], None, k);
    assert [n] + [] == [n];
  }

  /** At the node itself. */
  lemma AtNode(m: Mounts, op: Op)
    requires [] in m && op.p == []
    ensures Apply(m, op) == if op.DoMount? then (if m[[]].None? then m[[] := Some(op.f)] else m) else m[[] := None]
  {
    var g := Grown(m, []);
    assert forall q :: FileAt(g, q) == FileAt(m, q);
    assert g == m;
  }

  /** A new empty node below a node none of whose paths begins with its name. */
  lemma NewChild(m: Mounts, n: string)
    requires [] in m && forall q :: q in m && |q| > 0 ==> q[0] != n
    ensures [n] !in m && m[[n] := None][[]] == m[[]]
    ensures Sub(m[[n] := None], n) == map[[] := None]
    ensures forall k :: k != n ==> Sub(m[[n] := None], k) == Sub(m, k)
  {
    assert [n][0] == n;
    SubNone(m, n, n);
    assert Sub(m, n) == map[] by {
      forall q
        ensures q !in Sub(m, n)
      {
        assert ([n] + q)[0] == n;
      }
    }
    forall k | k != n
      ensures Sub(m[[n] := None], k) == Sub(m, k)
    {
      SubNone(m, n, k);
    }
  }

  lemma ApplyMount(m: Mounts, p: Path, f: File)
    ensures forall q :: Apply(m, Moved(DoMount(q, f), p)) == Mount(m, p, f)
  {
  }

  lemma ApplyUnmount(m: Mounts, p: Path)
    ensures forall q :: Apply(m, Moved(DoUnmount(q), p)) == Unmount(m, p)
  {
  }

  // ---- Walking ----------------------------------------------------------------------------------

  /** How many tokens the walk has taken when it stops: those of the deepest node, and one empty token if that is
      what stopped it. */
  function Consumed(m: Mounts, ts: Path): (k: nat)
    requires [] in m
    ensures k <= |ts|
  {
    var d := Depth(m, ts);
    if d < |ts| && ts[d] == "" then d + 1 else d
  }

  lemma {:induction false} DepthBelow(m: Mounts, n: string, q: Path, k: nat)
    requires k <= |q| && q[..k] in Sub(m, n) && ([n] + q)[..k + 1] in m
    ensures DepthFrom(m, [n] + q, k + 1) == 1 + DepthFrom(Sub(m, n), q, k)
    decreases |q| - k
  {
    if k < |q| {
      assert ([n] + q)[..k + 2] == [n] + q[..k + 1];
      if q[..k + 1] in Sub(m, n) {
        DepthBelow(m, n, q, k + 1);
      }
    }
  }

  /** One step of a lookup. */
  lemma LookupStep(m: Mounts, n: string, q: Path)
    requires [] in m
    ensures [n] in m ==> (
      && [] in Sub(m, n) && Lookup(m, [n] + q) == Lookup(Sub(m, n), q)
      && Consumed(m, [n] + q) == 1 + Consumed(Sub(m, n), q))
    ensures [n] !in m ==> Lookup(m, [n] + q) == m[[]] && Consumed(m, [n] + q) == if n == "" then 1 else 0
  {
    hide Sub;
    var s := [n] + q;
    assert s[..0] == [] && s[..1] == [n] && [n] + [] == [n];
    if [n] in m {
      DepthBelow(m, n, q, 0);
      var d := Depth(Sub(m, n), q);
      assert Depth(m, s) == d + 1;
      assert s[..d + 1] == [n] + q[..d];
    }
  }

  lemma LookupEnd(m: Mounts)
    requires [] in m
    ensures Lookup(m, []) == m[[]] && Consumed(m, []) == 0
  {
  }

  /** What finddir makes of the remaining tokens, one after the other. */
  function Feed(finddir: (File, string) -> Option<File>, f: File, ts: Path): Option<File>
    decreases |ts|
  {
    if ts == [] then Some(f)
    else match finddir(f, ts[0])
      case None => None
      case Some(g) => Feed(finddir, g, ts[1..])
  }

  /** Feeding succeeds exactly when there is a chain of files, each found in the one before by its own token, in order. */
  lemma {:induction false} FeedIs(finddir: (File, string) -> Option<File>, f: File, ts: Path, g: File)
    ensures Feed(finddir, f, ts) == Some(g) <==> exists chain: seq<File> :: Leads(finddir, f, ts, g, chain)
    decreases |ts|
  {
    if ts == [] {
      if Feed(finddir, f, ts) == Some(g) { assert Leads(finddir, f, ts, g, [f]); }
    } else {
      if Feed(finddir, f, ts) == Some(g) {
        var h := finddir(f, ts[0]).value;
        FeedIs(finddir, h, ts[1..], g);
        var rest :| Leads(finddir, h, ts[1..], g, rest);
        LeadsFrom(finddir, f, ts, g, h, rest);
      }
      if chain: seq<File> :| Leads(finddir, f, ts, g, chain) {
        assert finddir(chain[0], ts[0]) == Some(chain[1]);
        FeedIs(finddir, chain[1], ts[1..], g);
        LeadsOn(finddir, f, ts, g, chain);
      }
    }
  }

  predicate Leads(finddir: (File, string) -> Option<File>, f: File, ts: Path, g: File, chain: seq<File>) {
    && |chain| == |ts| + 1 && chain[0] == f && chain[|ts|] == g
    && forall i :: 0 <= i < |ts| ==> finddir(chain[i], ts[i]) == Some(chain[i + 1])
  }

  lemma LeadsFrom(finddir: (File, string) -> Option<File>, f: File, ts: Path, g: File, h: File, rest: seq<File>)
    requires ts != [] && finddir(f, ts[0]) == Some(h) && Leads(finddir, h, ts[1..], g, rest)
    ensures Leads(finddir, f, ts, g, [f] + rest)
  {
    forall i | 0 <= i < |ts|
      ensures finddir(([f] + rest)[i], ts[i]) == Some(([f] + rest)[i + 1])
    {
      if i > 0 { assert ts[i] == ts[1..][i - 1]; }
    }
  }

  lemma LeadsOn(finddir: (File, string) -> Option<File>, f: File, ts: Path, g: File, chain: seq<File>)
    requires ts != [] && Leads(finddir, f, ts, g, chain)
    ensures Leads(finddir, chain[1], ts[1..], g, chain[1..])
  {
    forall i | 0 <= i < |ts| - 1
      ensures finddir(chain[1..][i], ts[1..][i]) == Some(chain[1..][i + 1])
    {
      assert finddir(chain[i + 1], ts[i + 1]) == Some(chain[i + 2]);
    }
  }

  /** file_open, as a function of the mount map. */
  function Opened(m: Mounts, vfsRoot: Option<File>, path: string, finddir: (File, string) -> Option<File>): Option<File>
    requires [] in m
  {
    if path == [SEPARATOR] then vfsRoot
    else if path == "" || path[0] != SEPARATOR then None
    else
      var ts := Tokens(path, Some(1));
      match Lookup(m, ts)
      case None => None
      case Some(f) => Feed(finddir, f, ts[Consumed(m, ts)..])
  }

  ghost predicate NamesFull(m: Mounts) { forall q :: q in m ==> "" !in q }

  /** The tokens for which the walk goes down to a child, one after the other. */
  function Taken(m: Mounts, ts: Path): Path
    decreases |ts|
  {
    if ts == [] || ts[0] == "" || [ts[0]] !in m then [] else [ts[0]] + Taken(Sub(m, ts[0]), ts[1..])
  }

  /** The tokens of a path are `down` and then `fed`, unless an empty token stands between them. */
  predicate Divides(ts: Path, down: Path, fed: Path) {
    && |down| <= |ts|
    && (down + fed == ts <==> |down| == |ts| || ts[|down|] != "")
    && (down + fed != ts ==> down + [""] + fed == ts)
  }

  lemma DividesBelow(n: string, ts: Path, down: Path, fed: Path)
    requires Divides(ts, down, fed)
    ensures Divides([n] + ts, [n] + down, fed)
  {
    var s, d := [n] + ts, [n] + down;
    assert d + fed == [n] + (down + fed) && d + [""] + fed == [n] + (down + [""] + fed);
    assert s[1..] == ts && (d + fed)[1..] == down + fed;
    assert |d| < |s| ==> s[|d|] == ts[|down|];
  }

  /** The tokens that the tree takes, and then those that finddir is given, are the tokens of the path, unless an empty
      token stops the walk: that one is dropped. */
  lemma {:induction false} NoTokenLost(m: Mounts, ts: Path)
    requires [] in m && NamesFull(m)
    ensures var down, fed := Taken(m, ts), ts[Consumed(m, ts)..];
      && Divides(ts, down, fed) && down in m && Lookup(m, ts) == m[down]
      && (fed != [] && "" !in ts ==> down + [fed[0]] !in m)
    decreases |ts|
  {
    hide Sub, Lookup, Consumed, Divides, Taken, NamesFull;
    if ts == [] {
      LookupEnd(m);
      assert Divides(ts, [], []) && Taken(m, ts) == [] && ts[0..] == [] by { EndOfPath(m); }
    } else {
      var n, q := ts[0], ts[1..];
      assert ts == [n] + q;
      LookupStep(m, n, q);
      TakenStep(m, n, q);
      if n != "" && [n] in m {
        NoTokenLost(Sub(m, n), q);
        DividesBelow(n, q, Taken(Sub(m, n), q), q[Consumed(Sub(m, n), q)..]);
        LongestBelow(m, n, q, Taken(Sub(m, n), q), q[Consumed(Sub(m, n), q)..]);
        assert ts[Consumed(m, ts)..] == q[Consumed(Sub(m, n), q)..];
      } else {
        StopsAtOnce(ts);
        assert ts[0..] == ts && ts[0] in ts && [] + [n] == [n];
      }
    }
  }

  lemma EndOfPath(m: Mounts)
    ensures Divides([], [], []) && Taken(m, []) == []
  {
  }

  lemma TakenStep(m: Mounts, n: string, q: Path)
    requires NamesFull(m)
    ensures if n == "" || [n] !in m then Taken(m, [n] + q) == [] else
      Taken(m, [n] + q) == [n] + Taken(Sub(m, n), q) && NamesFull(Sub(m, n))
    ensures n == "" ==> [n] !in m
  {
    assert ([n] + q)[1..] == q;
    FullBelow(m, n);
  }

  lemma LongestBelow(m: Mounts, n: string, ts: Path, down: Path, fed: Path)
    requires fed != [] && "" !in ts ==> down + [fed[0]] !in Sub(m, n)
    ensures fed != [] && "" !in [n] + ts ==> [n] + down + [fed[0]] !in m
  {
    if fed != [] {
      assert [n] + down + [fed[0]] == [n] + (down + [fed[0]]);
      assert forall t :: t in ts ==> t in [n] + ts;
    }
  }

  lemma StopsAtOnce(ts: Path)
    requires ts != []
    ensures Divides(ts, [], if ts[0] == "" then ts[1..] else ts)
  {
  }

  lemma FullBelow(m: Mounts, n: string)
    requires NamesFull(m)
    ensures NamesFull(Sub(m, n))
  {
    forall r | r in Sub(m, n)
      ensures "" !in r
    {
      assert "" !in [n] + r;
    }
  }

  /** So file_open divides a path without empty tokens in two, at the deepest node of the tree: its file, and then what
      finddir makes of the rest. */
  lemma OpenDivides(m: Mounts, path: string, vfsRoot: Option<File>, finddir: (File, string) -> Option<File>)
    returns (down: Path, fed: Path)
    requires Closed(m) && |path| > 1 && path[0] == SEPARATOR && "" !in Tokens(path, Some(1))
    ensures down + fed != [] && path == [SEPARATOR] + Join(down + fed)
    ensures forall i :: 0 <= i < |down + fed| ==> SEPARATOR !in (down + fed)[i]
    ensures down in m && (fed != [] ==> down + [fed[0]] !in m)
    ensures Opened(m, vfsRoot, path, finddir) == match m[down] { case None => None case Some(f) => Feed(finddir, f, fed) }
  {
    hide Tokens, Lookup, Consumed, Join, Taken;
    assert NamesFull(m);
    var ts := Tokens(path, Some(1));
    JoinTokens(path, 1);
    TokensHaveNoSeparator(path, Some(1));
    NoTokenLost(m, ts);
    down, fed := Taken(m, ts), ts[Consumed(m, ts)..];
    if |down| < |ts| { assert ts[|down|] in ts; }
    assert path == [path[0]] + path[1..];
  }

  /** Opening the path that has just been mounted gives the mounted file itself. */
  lemma OpenMounted(m: Mounts, path: string, f: File, vfsRoot: Option<File>, finddir: (File, string) -> Option<File>)
    requires Closed(m) && |path| > 1 && path[0] == SEPARATOR && "" !in Tokens(path, Some(1))
    requires FileAt(m, Tokens(path, Some(1))) == None
    ensures Target(Tokens(path, Some(1))) == Tokens(path, Some(1))
    ensures var r := Mount(m, Tokens(path, Some(1)), f); [] in r && Opened(r, vfsRoot, path, finddir) == Some(f)
  {
    hide Mount, Tokens, Lookup, Depth, Shared, Closed, Stop;
    var ts := Tokens(path, Some(1));
    var r := Mount(m, ts, f);
    LookupAfterMount(m, ts, f, ts);
    SharedSelf(ts);
    SameKeysMount(m, ts, f);
    TargetWhole(ts);
    assert Lookup(r, ts) == Some(f) && ts[Consumed(r, ts)..] == [];
  }

  lemma TargetWhole(ts: Path)
    requires "" !in ts
    ensures Target(ts) == ts
  {
    assert Stop(ts) == |ts|;
  }

  lemma {:induction false} SharedSelf(p: Path)
    ensures Shared(p, p) == |p|
  {
    if p != [] {
      SharedSelf(p[1..]);
    }
  }

  lemma SameKeysMount(m: Mounts, p: Path, f: File)
    requires Closed(m) && "" !in p
    ensures Closed(Mount(m, p, f)) && p in Mount(m, p, f) && Depth(Mount(m, p, f), p) == |p|
  {
    GrownClosed(m, p);
    assert Prefix(p, p) && p[..|p|] == p;
    DepthIs(Mount(m, p, f), p, |p|);
  }
}
