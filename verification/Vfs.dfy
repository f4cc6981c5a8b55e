/** The mount tree of the VFS, updated in place (src/fs/vfs.c:294-492). */
module Vfs {
  import opened MountTable
  import opened Options

  /** A tree node with its vfs_entry. `view` is the map that the node stands for. */
  class Node {
    const name: string
    var file: Option<File>
    var children: seq<Node>
    ghost var repr: set<object>
    ghost var view: Mounts

    constructor (name: string)
      ensures this.name == name && file == None && children == []
      ensures Valid() && fresh(repr) && view == map[[] := None]
    {
      this.name, file, children, repr, view := name, None, [], {this}, map[[] := None];
    }

    ghost predicate Valid()
      reads this, repr
      decreases repr
    {
      && this in repr
      && (forall i :: 0 <= i < |children| ==> ChildValid(children[i]))
      && Apart(children)
      && [] in view && view[[]] == file
      && (forall i :: 0 <= i < |children| ==> children[i].view == Sub(view, children[i].name))
      && (forall q :: q in view && |q| > 0 ==> HasName(children, q[0]))
    }

    ghost predicate ChildValid(c: Node)
      requires this in repr
      reads this, repr
      decreases repr, 0
    {
      c in repr && c in c.repr && c.repr < repr && this !in c.repr && Named(c) && c.Valid()
    }

    method SetFile(x: Option<File>)
      requires Valid()
      modifies this
      ensures Valid() && repr == old(repr) && view == old(view)[[] := x]
    {
      SubFile(x);
      file := x;
      view := view[[] := x];
    }

    lemma SubFile(x: Option<File>)
      ensures forall n :: Sub(view[[] := x], n) == Sub(view, n)
    {
    }

    /** All of Valid except for the child k, which has changed. */
    ghost predicate Loose(k: nat)
      reads this, repr, set i | 0 <= i < |children| :: children[i], set i, o | 0 <= i < |children| && o in children[i].repr :: o
    {
      && this in repr && k < |children|
      && (forall i :: 0 <= i < |children| && i != k ==> ChildValid(children[i]))
      && children[k] in repr && this !in children[k].repr && Named(children[k]) && children[k].Valid()
      && Apart(children)
    }

    /** The node has a child of a name exactly when its map has that one-token path. */
    lemma Known(n: string)
      requires Valid()
      ensures [n] in view <==> HasName(children, n)
      ensures forall k :: 0 <= k < |children| && children[k].name == n ==> children[k].Valid() && children[k].view == Sub(view, n)
      ensures n == "" ==> !HasName(children, n)
    {
      if [n] in view {
        assert [n][0] == n;
      }
      if HasName(children, n) {
        var k :| 0 <= k < |children| && children[k].name == n;
        assert ChildValid(children[k]);
        assert children[k].Valid() && [] in children[k].view;
        assert [n] + [] == [n];
      }
    }

    /** What is known of the children before an operation on child k that will leave this node with map v. */
    lemma Split(k: nat, op: Op, p: Path, v: Mounts)
      requires Valid() && k < |children| && op.p == [children[k].name] + p && v == Apply(view, op)
      ensures Loose(k) && [] in v && v[[]] == file && children[k].name != [SEPARATOR]
      ensures forall i :: 0 <= i < |children| && i != k ==>
        children[i].repr !! children[k].repr && Sub(v, children[i].name) == children[i].view
      ensures forall i, j :: 0 <= i < j < |children| ==> children[i].name != children[j].name && children[i].repr !! children[j].repr
      ensures Sub(v, children[k].name) == Apply(children[k].view, Moved(op, p))
      ensures forall q :: q in v && |q| > 0 ==> HasName(children, q[0])
    {
      hide Sub, Apply;
      BelowChild(view, op, children[k].name, p);
    }

    /** Makes the node valid again, with map v. */
    ghost method Adopt(k: nat, v: Mounts)
      requires Loose(k) && [] in v && v[[]] == file
      requires forall i :: 0 <= i < |children| ==> children[i].view == Sub(v, children[i].name)
      requires forall q :: q in v && |q| > 0 ==> HasName(children, q[0])
      modifies this`repr, this`view
      ensures Valid() && view == v && repr == old(repr) + children[k].repr
    {
      hide Sub, HasName, Apart, Named;
      repr := repr + children[k].repr;
      view := v;
    }

    /** list_insert_front on the children. */
    method Link(child: Node)
      requires Valid() && child.Valid() && child.repr !! repr && Named(child) && !HasName(children, child.name)
      modifies this
      ensures Loose(0) && children == [child] + old(children) && repr == old(repr) + child.repr
      ensures file == old(file) && view == old(view)
    {
      hide Sub, Named, Apart, HasName;
      ghost var was := children;
      assert forall d :: d in was ==> ChildValid(d);
      children := [child] + children;
      repr := repr + child.repr;
      ApartFront(child, was);
      assert forall i :: 1 <= i < |children| ==> children[i] == was[i - 1];
    }

    /** gentree_insert below this node. */
    method Insert(token: string)
      requires Valid() && token != "" && SEPARATOR !in token && !HasName(children, token)
      modifies this
      ensures Valid() && fresh(repr - old(repr)) && file == old(file) && view == old(view)[[token] := None]
      ensures |children| == |old(children)| + 1 && children[0].name == token && [token] !in old(view)
    {
      hide Sub, Loose, Apart, HasName;
      var child := new Node(token);
      NewChild(view, token);
      ghost var was := children;
      FrontNames(child, was);
      Link(child);
      forall i | 0 <= i < |children|
        ensures children[i].view == Sub(view[[token] := None], children[i].name)
      {
        if i > 0 { assert children[i] == was[i - 1]; }
      }
      Adopt(0, view[[token] := None]);
    }
  }

  lemma FrontNames(c: Node, cs: seq<Node>)
    requires !HasName(cs, c.name)
    ensures forall n :: HasName([c] + cs, n) <==> n == c.name || HasName(cs, n)
    ensures forall i :: 0 <= i < |cs| ==> cs[i].name != c.name
  {
    forall n
      ensures HasName([c] + cs, n) <==> n == c.name || HasName(cs, n)
    {
      assert ([c] + cs)[0] == c && forall i :: 0 <= i < |cs| ==> ([c] + cs)[i + 1] == cs[i];
    }
  }

  ghost predicate Named(c: Node) { c.name != "" && SEPARATOR !in c.name }

  predicate HasName(cs: seq<Node>, n: string) { exists i :: 0 <= i < |cs| && cs[i].name == n }

  /** No two siblings have the same name or a node in common. */
  ghost predicate Apart(cs: seq<Node>)
    reads cs
  {
    forall i, j :: 0 <= i < j < |cs| ==> cs[i].name != cs[j].name && cs[i].repr !! cs[j].repr
  }

  lemma ApartFront(c: Node, cs: seq<Node>)
    requires Apart(cs) && !HasName(cs, c.name) && forall d :: d in cs ==> c.repr !! d.repr
    ensures Apart([c] + cs)
  {
    forall i, j | 0 <= i < j < |[c] + cs|
      ensures ([c] + cs)[i].name != ([c] + cs)[j].name && ([c] + cs)[i].repr !! ([c] + cs)[j].repr
    {
      assert ([c] + cs)[j] == cs[j - 1];
      if i > 0 { assert ([c] + cs)[i] == cs[i - 1]; }
    }
  }

  ghost function Reprs(cs: seq<Node>): (r: seq<set<object>>)
    reads cs
    ensures |r| == |cs| && forall i :: 0 <= i < |cs| ==> r[i] == cs[i].repr
  {
    seq(|cs|, i requires 0 <= i < |cs| reads cs => cs[i].repr)
  }

  /** One child has grown by nodes that no other child has. */
  lemma ApartGrown(cs: seq<Node>, was: seq<set<object>>, k: nat)
    requires |was| == |cs| && k < |cs|
    requires forall i, j :: 0 <= i < j < |cs| ==> cs[i].name != cs[j].name && was[i] !! was[j]
    requires forall i :: 0 <= i < |cs| && i != k ==> cs[i].repr == was[i] && was[i] !! cs[k].repr
    ensures Apart(cs)
  {
  }

  /** The child with this name, as the loops over the list find it; the last one if there were several. */
  method Find(cs: seq<Node>, token: string) returns (found: bool, k: nat)
    ensures found <==> exists i :: 0 <= i < |cs| && cs[i].name == token
    ensures found ==> k < |cs| && cs[k].name == token
  {
    found, k := false, 0;
    for i := 0 to |cs|
      invariant found <==> exists j :: 0 <= j < i && cs[j].name == token
      invariant found ==> k < i && cs[k].name == token
    {
      if cs[i].name == token {
        found, k := true, i;
      }
    }
  }

  /** The same search with a break at the first match. */
  method FindFirst(cs: seq<Node>, token: string) returns (found: bool, k: nat)
    ensures found <==> HasName(cs, token)
    ensures found ==> k < |cs| && cs[k].name == token
  {
    found, k := false, 0;
    for i := 0 to |cs|
      invariant !found && forall j :: 0 <= j < i ==> cs[j].name != token
    {
      if cs[i].name == token {
        found, k := true, i;
        return;
      }
    }
  }

  class FileTree {
    const root: Node                            // vfs_tree->root
    var vfsRoot: Option<File>

    constructor ()
      ensures root.Valid() && fresh(root.repr) && this !in root.repr
      ensures root.view == map[[] := None] && vfsRoot == None && root.name == "root"
      ensures Valid() && !Full()
    {
      root := new Node("root");
      vfsRoot := None;
    }

    /** A file is mounted on the top of the tree. */
    ghost predicate Full()
      reads root
    {
      FileAt(root.view, []).Some?
    }

    ghost predicate Valid()
      reads this, root, root.repr
    {
      root.Valid() && this !in root.repr && root.name == "root" && Closed(root.view)
    }

    /** The loop over the children: the child of that name, made when there is none. */
    method Enter(subroot: Node, token: string, ghost op: Op, ghost p: Path) returns (k: nat)
      requires subroot.Valid() && token != "" && SEPARATOR !in token && op.p == [token] + p
      modifies subroot
      ensures subroot.Valid() && fresh(subroot.repr - old(subroot.repr)) && k < |subroot.children|
      ensures subroot.children[k].name == token && subroot.file == old(subroot.file)
      ensures Apply(subroot.view, op) == Apply(old(subroot.view), op)
    {
      hide Apart, Sub, Apply;
      var found, j := Find(subroot.children, token);
      k := j;
      if !found {
        assert op.p[..1] == [token];
        NodeAhead(subroot.view, op);
        subroot.Insert(token);
        k := 0;
      }
    }

    method MountRecur(path: string, pos: Option<nat>, subroot: Node, f: File)
      requires InString(path, pos) && subroot.Valid() && this !in subroot.repr
      modifies this`vfsRoot, subroot.repr
      ensures subroot.Valid() && fresh(subroot.repr - old(subroot.repr)) 
      ensures vfsRoot ==
        if subroot.name == [SEPARATOR] && Target(Tokens(path, pos)) == [] && old(subroot.file).None? then Some(f)
        else old(vfsRoot)
      ensures subroot.view == Mount(old(subroot.view), Target(Tokens(path, pos)), f)
      decreases if pos.Some? then 1 + |path| - pos.value else 0, 0
    {
      hide Apart, Sub, Mount, Tokens, Target, HasName;
      ghost var op := DoMount(Target(Tokens(path, pos)), f);
      TargetStep(path, pos);
      if pos.None? || NextCut(path, pos.value) == pos.value {
        AtNode(subroot.view, op);
        if subroot.file.None? {
          if subroot.name == [SEPARATOR] {
            vfsRoot := Some(f);
          }
          subroot.SetFile(Some(f));
        }
        return;
      }
      var token := path[pos.value..NextCut(path, pos.value)];
      var rest := After(path, pos.value);
      ghost var p := Target(Tokens(path, rest));
      var k := Enter(subroot, token, op, p);
      MountBelow(path, rest, subroot, k, f, op);
    }

    /** The recursive call, and what it means for the node above. */
    method MountBelow(path: string, rest: Option<nat>, subroot: Node, k: nat, f: File, ghost op: Op)
      requires InString(path, rest) && subroot.Valid() && this !in subroot.repr && k < |subroot.children|
      requires op == DoMount([subroot.children[k].name] + Target(Tokens(path, rest)), f)
      modifies this`vfsRoot, subroot.repr
      ensures subroot.Valid() && fresh(subroot.repr - old(subroot.repr)) && vfsRoot == old(vfsRoot)
      ensures subroot.view == Apply(old(subroot.view), op)
      decreases if rest.Some? then 1 + |path| - rest.value else 0, 1
    {
      hide Apart, Sub, Tokens, Target, HasName, Apply, Reprs, Mount, Named;
      ghost var cs, v, p := subroot.children, Apply(subroot.view, op), Target(Tokens(path, rest));
      ghost var was := Reprs(cs);
      subroot.Split(k, op, p, v);
      ApplyMount(cs[k].view, p, f);
      MountRecur(path, rest, subroot.children[k], f);
      assert forall i :: 0 <= i < |cs| && i != k ==> cs[i].repr == was[i] && was[i] !! cs[k].repr;
      ApartGrown(cs, was, k);
      subroot.Adopt(k, v);
    }

    method UnmountRecur(path: string, pos: Option<nat>, subroot: Node)
      requires InString(path, pos) && subroot.Valid() && this !in subroot.repr
      modifies this`vfsRoot, subroot.repr
      ensures subroot.Valid() && fresh(subroot.repr - old(subroot.repr))
      ensures vfsRoot == if subroot.name == [SEPARATOR] && Target(Tokens(path, pos)) == [] then None else old(vfsRoot)
      ensures subroot.view == Unmount(old(subroot.view), Target(Tokens(path, pos)))
      decreases if pos.Some? then 1 + |path| - pos.value else 0, 0
    {
      hide Apart, Sub, Unmount, Tokens, Target, HasName;
      ghost var op := DoUnmount(Target(Tokens(path, pos)));
      TargetStep(path, pos);
      if pos.None? || NextCut(path, pos.value) == pos.value {
        AtNode(subroot.view, op);
        if subroot.name == [SEPARATOR] {
          vfsRoot := None;
        }
        subroot.SetFile(None);
        return;
      }
      var token := path[pos.value..NextCut(path, pos.value)];
      var rest := After(path, pos.value);
      ghost var p := Target(Tokens(path, rest));
      var k := Enter(subroot, token, op, p);
      UnmountBelow(path, rest, subroot, k, op);
    }

    method UnmountBelow(path: string, rest: Option<nat>, subroot: Node, k: nat, ghost op: Op)
      requires InString(path, rest) && subroot.Valid() && this !in subroot.repr && k < |subroot.children|
      requires op == DoUnmount([subroot.children[k].name] + Target(Tokens(path, rest)))
      modifies this`vfsRoot, subroot.repr
      ensures subroot.Valid() && fresh(subroot.repr - old(subroot.repr)) && vfsRoot == old(vfsRoot)
      ensures subroot.view == Apply(old(subroot.view), op)
      decreases if rest.Some? then 1 + |path| - rest.value else 0, 1
    {
      hide Apart, Sub, Tokens, Target, HasName, Apply, Reprs, Unmount, Named;
      ghost var cs, v, p := subroot.children, Apply(subroot.view, op), Target(Tokens(path, rest));
      ghost var was := Reprs(cs);
      subroot.Split(k, op, p, v);
      ApplyUnmount(cs[k].view, p);
      UnmountRecur(path, rest, subroot.children[k]);
      assert forall i :: 0 <= i < |cs| && i != k ==> cs[i].repr == was[i] && was[i] !! cs[k].repr;
      ApartGrown(cs, was, k);
      subroot.Adopt(k, v);
    }

    /** VFS_mount. */
    method MountAt(path: string, f: File)
      requires Valid() && path != ""
      modifies this`vfsRoot, root.repr
      ensures Valid() && fresh(root.repr - old(root.repr))
      ensures root.view == Mount(old(root.view), Target(Tokens(path, Some(1))), f)
      ensures vfsRoot == if path == [SEPARATOR] && FileAt(old(root.view), []).None? then Some(f) else old(vfsRoot)
    {
      hide Tokens, Mount, Target, Closed;
      ghost var p := Target(Tokens(path, Some(1)));
      GrownClosed(root.view, p);
      if path[0] == SEPARATOR && |path| == 1 {
        TargetStep(path, Some(1));
        AtNode(root.view, DoMount(p, f));
        if root.file.None? {
          vfsRoot := Some(f);
          root.SetFile(Some(f));
        }
        return;
      }
      MountRecur(path, Some(1), root, f);
    }

    /** VFS_unmount: vfs_root keeps naming the file that was mounted on "/". */
    method UnmountAt(path: string)
      requires Valid() && path != ""
      modifies this`vfsRoot, root.repr
      ensures Valid() && fresh(root.repr - old(root.repr))
      ensures root.view == Unmount(old(root.view), Target(Tokens(path, Some(1)))) && vfsRoot == old(vfsRoot)
    {
      hide Tokens, Unmount, Target, Closed;
      ghost var p := Target(Tokens(path, Some(1)));
      GrownClosed(root.view, p);
      if path[0] == SEPARATOR && |path| == 1 {
        TargetStep(path, Some(1));
        AtNode(root.view, DoUnmount(p));
        root.SetFile(None);
        return;
      }
      UnmountRecur(path, Some(1), root);
    }

    /** get_mountpoint_recur: the file where the walk stops, and where the path pointer is left. `cut` says that the
        token there has been cut off by strsep already. */
    method LookupRecur(path: string, pos: Option<nat>, subroot: Node) returns (file: Option<File>, rest: Option<nat>, cut: bool)
      requires InString(path, pos) && subroot.Valid()
      ensures file == Lookup(subroot.view, Tokens(path, pos)) && InString(path, rest)
      ensures Tokens(path, rest) == Tokens(path, pos)[Consumed(subroot.view, Tokens(path, pos))..]
      ensures cut ==> rest.Some?
      decreases if pos.Some? then 1 + |path| - pos.value else 0
    {
      hide Sub, Lookup, Consumed, Apart, HasName, Tokens;
      TokensStep(path, pos);
      LookupEnd(subroot.view);
      if pos.None? {
        return subroot.file, None, false;
      }
      var token := path[pos.value..NextCut(path, pos.value)];
      var after := After(path, pos.value);
      LookupStep(subroot.view, token, Tokens(path, after));
      subroot.Known(token);
      if token == "" {
        return subroot.file, after, false;
      }
      var found, k := FindFirst(subroot.children, token);
      if !found {
        return subroot.file, pos, true;
      }
      file, rest, cut := LookupRecur(path, after, subroot.children[k]);
      DropOne(token, Tokens(path, after), Consumed(subroot.children[k].view, Tokens(path, after)));
    }

    /** get_mountpoint for a path without a separator at its end. */
    method GetMountpoint(path: string) returns (file: Option<File>, rest: Option<nat>, cut: bool)
      requires Valid() && (|path| > 1 ==> path[|path| - 1] != SEPARATOR)
      ensures path == "" || path[0] != SEPARATOR ==> file.None?
      ensures path == [SEPARATOR] ==> file == root.file
      ensures |path| > 1 && path[0] == SEPARATOR ==> (
        && InString(path, rest) && (cut ==> rest.Some?)
        && file == Lookup(root.view, Tokens(path, Some(1)))
        && Tokens(path, rest) == Tokens(path, Some(1))[Consumed(root.view, Tokens(path, Some(1)))..])
    {
      if path == "" || path[0] != SEPARATOR {
        return None, None, false;
      }
      if |path| == 1 {
        return root.file, None, false;
      }
      file, rest, cut := LookupRecur(path, Some(1), root);
    }

    /** file_open: the mount tree takes the first tokens, finddir of the mounted file systems the others. */
    method FileOpen(path: string, finddir: (File, string) -> Option<File>) returns (node: Option<File>)
      requires Valid() && (|path| > 1 ==> path[|path| - 1] != SEPARATOR)
      ensures node == Opened(root.view, vfsRoot, path, finddir)
      ensures path == "/" ==> node == vfsRoot
      ensures path == "" || path[0] != '/' ==> node == None
    {
      hide Tokens, Lookup, Consumed;
      var start, rest, cut := GetMountpoint(path);
      if path == [SEPARATOR] {
        return vfsRoot;
      }
      if start.None? {
        return None;
      }
      var newStart := Restart(path, rest, cut);
      node := FeedRest(path, newStart, start.value, finddir);
    }
  }

  lemma DropOne(t: string, ts: Path, k: nat)
    requires k <= |ts|
    ensures ([t] + ts)[1 + k..] == ts[k..]
  {
  }

  // ---- The root over runs ---------------------------------------------------------------------------

  datatype TreeOp = MountOp(path: string, f: File) | UnmountOp(path: string)

  /** The path mounts or unmounts the top of the tree: "/", or a path whose first token is empty. */
  predicate AtTop(path: string)
    requires path != ""
  {
    path == "/" || |path| == 1 || path[1] == '/'
  }

  /** Whether a file is mounted on the top of the tree after each of the calls, beginning with a tree without one. */
  predicate TopFull(ops: seq<TreeOp>)
    requires forall i :: 0 <= i < |ops| ==> ops[i].path != ""
  {
    ops != [] && (
      var last := ops[|ops| - 1];
      if AtTop(last.path) then last.MountOp? else TopFull(ops[..|ops| - 1]))
  }

  /** Call i mounts "/" while nothing is mounted there. */
  predicate MountsRoot(ops: seq<TreeOp>, i: nat)
    requires i < |ops| && forall k :: 0 <= k < |ops| ==> ops[k].path != ""
  {
    ops[i].MountOp? && ops[i].path == "/" && !TopFull(ops[..i])
  }

  /** After any calls on a new tree, opening "/" gives the file of the last call that mounted "/" on an empty top, and nothing
      if there was none: no other mount and no unmount, not even of "/", changes that. */
  method RootRun(ops: seq<TreeOp>, finddir: (File, string) -> Option<File>) returns (tree: FileTree, node: Option<File>)
    requires forall i :: 0 <= i < |ops| ==> ops[i].path != ""
    ensures fresh(tree) && tree.Valid()
    ensures forall i :: 0 <= i < |ops| && MountsRoot(ops, i) && (forall k :: i < k < |ops| ==> !MountsRoot(ops, k)) ==>
      node == Some(ops[i].f)
    ensures (forall i :: 0 <= i < |ops| ==> !MountsRoot(ops, i)) ==> node == None
  {
    hide LastRoot, TopFull, AtTop, MountsRoot, FileTree.Valid, FileTree.Full, Opened;
    tree := new FileTree();
    NothingYet(ops);
    for n := 0 to |ops|
      invariant fresh(tree) && fresh(tree.root.repr) && tree.Valid()
      invariant tree.Full() <==> TopFull(ops[..n])
      invariant LastRoot(ops, n, tree.vfsRoot)
    {
      RootStep(ops, n, tree.vfsRoot);
      InTree(tree);
      TreeStep(tree, ops[n]);
    }
    assert ops[..|ops|] == ops;
    LastIs(ops, tree.vfsRoot);
    InTree(tree);
    node := tree.FileOpen("/", finddir);
  }

  method TreeStep(tree: FileTree, op: TreeOp)
    requires tree.Valid() && op.path != ""
    modifies tree`vfsRoot, tree.root.repr
    ensures tree.Valid() && fresh(tree.root.repr - old(tree.root.repr))
    ensures tree.Full() <==> if AtTop(op.path) then op.MountOp? else old(tree.Full())
    ensures tree.vfsRoot == if op.MountOp? && op.path == "/" && !old(tree.Full()) then Some(op.f) else old(tree.vfsRoot)
  {
    hide Tokens, Target, AtTop, Closed;
    TopTarget(op.path);
    match op
    case MountOp(path, f) =>
      TopAfter(tree.root.view, DoMount(Target(Tokens(path, Some(1))), f));
      tree.MountAt(path, f);
    case UnmountOp(path) =>
      TopAfter(tree.root.view, DoUnmount(Target(Tokens(path, Some(1)))));
      tree.UnmountAt(path);
  }

  lemma InTree(tree: FileTree)
    requires tree.Valid()
    ensures tree !in tree.root.repr
  {
  }

  lemma NothingYet(ops: seq<TreeOp>)
    requires forall i :: 0 <= i < |ops| ==> ops[i].path != ""
    ensures LastRoot(ops, 0, None) && !TopFull(ops[..0])
  {
  }

  lemma LastIs(ops: seq<TreeOp>, r: Option<File>)
    requires (forall i :: 0 <= i < |ops| ==> ops[i].path != "") && LastRoot(ops, |ops|, r)
    ensures forall i :: 0 <= i < |ops| && MountsRoot(ops, i) && (forall k :: i < k < |ops| ==> !MountsRoot(ops, k)) ==>
      r == Some(ops[i].f)
    ensures (forall i :: 0 <= i < |ops| ==> !MountsRoot(ops, i)) ==> r == None
  {
  }

  /** r is the file of the last of the first n calls that mounted "/" on an empty top. */
  ghost predicate LastRoot(ops: seq<TreeOp>, n: nat, r: Option<File>)
    requires n <= |ops| && forall i :: 0 <= i < |ops| ==> ops[i].path != ""
  {
    && (forall i :: 0 <= i < n && MountsRoot(ops, i) && (forall k :: i < k < n ==> !MountsRoot(ops, k)) ==> r == Some(ops[i].f))
    && ((forall i :: 0 <= i < n ==> !MountsRoot(ops, i)) ==> r == None)
  }

  lemma RootStep(ops: seq<TreeOp>, n: nat, r: Option<File>)
    requires n < |ops| && (forall i :: 0 <= i < |ops| ==> ops[i].path != "") && LastRoot(ops, n, r)
    ensures LastRoot(ops, n + 1, if ops[n].MountOp? && ops[n].path == "/" && !TopFull(ops[..n]) then Some(ops[n].f) else r)
    ensures TopFull(ops[..n + 1]) == if AtTop(ops[n].path) then ops[n].MountOp? else TopFull(ops[..n])
  {
    hide MountsRoot, LastRoot, TopFull, AtTop;
    MountsIs(ops, n);
    FullStep(ops, n);
    LastStep(ops, n, r, if ops[n].MountOp? && ops[n].path == "/" && !TopFull(ops[..n]) then Some(ops[n].f) else r);
  }

  lemma MountsIs(ops: seq<TreeOp>, n: nat)
    requires n < |ops| && (forall i :: 0 <= i < |ops| ==> ops[i].path != "")
    ensures MountsRoot(ops, n) <==> ops[n].MountOp? && ops[n].path == "/" && !TopFull(ops[..n])
  {
  }

  lemma FullStep(ops: seq<TreeOp>, n: nat)
    requires n < |ops| && (forall i :: 0 <= i < |ops| ==> ops[i].path != "")
    ensures TopFull(ops[..n + 1]) == if AtTop(ops[n].path) then ops[n].MountOp? else TopFull(ops[..n])
  {
    hide AtTop;
    assert ops[..n + 1][..n] == ops[..n];
  }

  lemma LastStep(ops: seq<TreeOp>, n: nat, r: Option<File>, r': Option<File>)
    requires n < |ops| && (forall i :: 0 <= i < |ops| ==> ops[i].path != "") && LastRoot(ops, n, r)
    requires if MountsRoot(ops, n) then ops[n].MountOp? && r' == Some(ops[n].f) else r' == r
    ensures LastRoot(ops, n + 1, r')
  {
    hide MountsRoot;
  }

  /** Paths whose walk ends at the top. */
  lemma TopTarget(path: string)
    requires path != ""
    ensures Target(Tokens(path, Some(1))) == [] <==> AtTop(path)
  {
    TargetStep(path, Some(1));
  }

  /** Only mounts and unmounts of the top change its file. */
  lemma TopAfter(m: Mounts, op: Op)
    requires [] in m
    ensures FileAt(Apply(m, op), []).Some? <==>
      if op.p == [] then op.DoMount? else FileAt(m, []).Some?
  {
  }

  /** The copy of the path is searched for what the walk has left of the path; that is found where the walk stopped. */
  method Restart(path: string, rest: Option<nat>, cut: bool) returns (newStart: Option<nat>)
    requires InString(path, rest)
    ensures newStart == rest
  {
    newStart := None;
    if rest.Some? {
      var filename := if cut then path[rest.value..NextCut(path, rest.value)] else path[rest.value..];
      assert Occurs(path, rest.value, filename);
      newStart := Strstr(path, rest.value, filename);
    }
  }

  /** The loop of file_open. */
  method FeedRest(path: string, from: Option<nat>, start: File, finddir: (File, string) -> Option<File>) returns (node: Option<File>)
    requires InString(path, from)
    ensures node == Feed(finddir, start, Tokens(path, from))
  {
    hide Tokens;
    var newStart, curr := from, start;
    while newStart.Some?
      invariant InString(path, newStart)
      invariant Feed(finddir, start, Tokens(path, from)) == Feed(finddir, curr, Tokens(path, newStart))
      decreases if newStart.Some? then 1 + |path| - newStart.value else 0
    {
      TokensStep(path, newStart);
      var token := path[newStart.value..NextCut(path, newStart.value)];
      newStart := After(path, newStart.value);
      var next := finddir(curr, token);
      if next.None? {
        return None;
      }
      curr := next.value;
    }
    TokensStep(path, None);
    node := Some(curr);
  }

  predicate Occurs(s: string, k: nat, needle: string) { k + |needle| <= |s| && s[k..k + |needle|] == needle }

  /** strstr from a position on. */
  method Strstr(s: string, from: nat, needle: string) returns (r: Option<nat>)
    requires from <= |s|
    ensures r.Some? ==> from <= r.value <= |s| && Occurs(s, r.value, needle) && forall k :: from <= k < r.value ==> !Occurs(s, k, needle)
    ensures r.None? ==> forall k :: from <= k <= |s| ==> !Occurs(s, k, needle)
  {
    for k := from to |s| + 1
      invariant forall j :: from <= j < k ==> !Occurs(s, j, needle)
    {
      if k + |needle| <= |s| && s[k..k + |needle|] == needle {
        return Some(k);
      }
    }
    r := None;
  }
}
