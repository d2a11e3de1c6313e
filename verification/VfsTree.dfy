/** The tree of kernel/fs/filebase.c on values: path components, the walk of vfs_path_to_node,
    and the map from component lists to nodes that the tree stands for. */
module VfsTree {
  import opened Common

  datatype Kind = File | Folder | BlockDevice | CharDevice | MountPoint

  /** A tree node with its inode: `parent` and `child` are indices of nodes; node 0 is the
      root. */
  datatype Node = Node(name: string, kind: Kind, parent: nat, child: seq<nat>)

  /** IS_TRAVERSABLE. */
  predicate Traversable(n: Node) {
    n.kind == Folder || n.kind == MountPoint
  }

  // ----- the tree -----

  /** A child knows its parent, comes after it, and has a name of its own among its siblings;
      only folders and mount points have children. */
  ghost predicate IsChild(nodes: seq<Node>, d: nat, c: nat) {
    d < c < |nodes| && nodes[c].parent == d && 0 < |nodes[c].name| <= NAME_MAX && '/' !in nodes[c].name
  }

  ghost predicate UniqueNames(nodes: seq<Node>, d: nat)
    requires d < |nodes|
  {
    forall i, j :: 0 <= i < j < |nodes[d].child| && nodes[d].child[i] < |nodes| && nodes[d].child[j] < |nodes|
                   ==> nodes[nodes[d].child[i]].name != nodes[nodes[d].child[j]].name
  }

  ghost predicate DirOk(nodes: seq<Node>, d: nat)
    requires d < |nodes|
  {
    && (forall i :: 0 <= i < |nodes[d].child| ==> IsChild(nodes, d, nodes[d].child[i]))
    && UniqueNames(nodes, d) && (nodes[d].child != [] ==> Traversable(nodes[d]))
  }

  ghost predicate Tree(nodes: seq<Node>) {
    |nodes| > 0 && forall d :: 0 <= d < |nodes| ==> DirOk(nodes, d)
  }

  /** The first child of `d` from position `i` on with the name. */
  function Child(nodes: seq<Node>, d: nat, name: string, i: nat): (r: Option<nat>)
    requires d < |nodes| && i <= |nodes[d].child|
    requires forall k :: 0 <= k < |nodes[d].child| ==> nodes[d].child[k] < |nodes|
    ensures r.Some? ==> r.value in nodes[d].child && nodes[r.value].name == name
    ensures r.None? ==> forall k :: i <= k < |nodes[d].child| ==> nodes[nodes[d].child[k]].name != name
    decreases |nodes[d].child| - i
  {
    if i == |nodes[d].child| then None
    else if nodes[nodes[d].child[i]].name == name then Some(nodes[d].child[i])
    else Child(nodes, d, name, i + 1)
  }

  /** The entry `name` of directory `d`. */
  function Entry(nodes: seq<Node>, d: nat, name: string): (r: Option<nat>)
    requires Tree(nodes) && d < |nodes|
    ensures r.Some? ==> d < r.value < |nodes| && nodes[r.value].name == name && nodes[r.value].parent == d
    ensures r.Some? ==> Traversable(nodes[d]) && r.value in nodes[d].child
    ensures r.None? ==> forall k :: 0 <= k < |nodes[d].child| ==>
              nodes[d].child[k] < |nodes| && nodes[nodes[d].child[k]].name != name
  {
    assert DirOk(nodes, d);
    Child(nodes, d, name, 0)
  }

  /** The node a list of components names, every one of which must exist: the map the tree
      stands for. */
  function Resolve(nodes: seq<Node>, p: seq<string>): (r: Option<nat>)
    requires Tree(nodes)
    ensures r.Some? ==> r.value < |nodes|
  {
    if p == [] then Some(0)
    else
      match Resolve(nodes, p[..|p| - 1])
      case None => None
      case Some(d) => Entry(nodes, d, p[|p| - 1])
  }

  /** A node has one path. */
  lemma {:induction false} PathUnique(nodes: seq<Node>, p: seq<string>, q: seq<string>)
    requires Tree(nodes) && Resolve(nodes, p).Some? && Resolve(nodes, p) == Resolve(nodes, q)
    ensures p == q
  {
    if p != [] && q != [] {
      var p', q' := p[..|p| - 1], q[..|q| - 1];
      PathUnique(nodes, p', q');
      assert p == p' + [p[|p| - 1]] && q == q' + [q[|q| - 1]];
    }
  }

  // ----- the walk of vfs_path_to_node -----

  /** Where the loop is: in directory `dir`, whether the last component was found, and whether
      the loop left because `dir` is no folder. */
  datatype At = At(dir: nat, found: bool, stuck: bool)

  /** The loop over the components `p`.  A component that does not exist is passed over. */
  function Walk(nodes: seq<Node>, p: seq<string>): (w: At)
    requires Tree(nodes)
    ensures w.dir < |nodes| && (w.stuck ==> !w.found && !Traversable(nodes[w.dir]))
  {
    if p == [] then At(0, true, false)
    else
      var w := Walk(nodes, p[..|p| - 1]);
      if w.stuck then w
      else if !Traversable(nodes[w.dir]) then At(w.dir, false, true)
      else
        match Entry(nodes, w.dir, p[|p| - 1])
        case Some(c) => At(c, true, false)
        case None => At(w.dir, false, false)
  }

  /** One round of the loop. */
  lemma WalkNext(nodes: seq<Node>, p: seq<string>, name: string)
    requires Tree(nodes)
    ensures Walk(nodes, p + [name]) ==
            var w := Walk(nodes, p);
            if w.stuck then w
            else if !Traversable(nodes[w.dir]) then At(w.dir, false, true)
            else match Entry(nodes, w.dir, name)
                 case Some(c) => At(c, true, false)
                 case None => At(w.dir, false, false)
  {
    assert (p + [name])[..|p|] == p;
  }

  /** Once out of the loop, the rest of the path does not matter. */
  lemma {:induction false} StuckStays(nodes: seq<Node>, p: seq<string>, q: seq<string>)
    requires Tree(nodes) && Walk(nodes, p).stuck
    ensures Walk(nodes, p + q) == Walk(nodes, p)
    decreases |q|
  {
    if q == [] {
      assert p + q == p;
    } else {
      var n := |q| - 1;
      StuckStays(nodes, p, q[..n]);
      WalkNext(nodes, p + q[..n], q[n]);
      assert p + q == p + q[..n] + [q[n]];
    }
  }

  /** A walk that ends without finding its last component, in a folder, has no entry of that
      name there. */
  lemma WalkMissed(nodes: seq<Node>, p: seq<string>)
    requires Tree(nodes) && !Walk(nodes, p).found && Traversable(nodes[Walk(nodes, p).dir])
    ensures p != [] && Entry(nodes, Walk(nodes, p).dir, p[|p| - 1]) == None
  {
  }

  /** What a lookup returns. */
  function Lookup(nodes: seq<Node>, p: seq<string>): Option<nat>
    requires Tree(nodes)
  {
    var w := Walk(nodes, p);
    if w.found then Some(w.dir) else None
  }

  /** What exists is found. */
  lemma {:induction false} WalkFindsResolved(nodes: seq<Node>, p: seq<string>)
    requires Tree(nodes) && Resolve(nodes, p).Some?
    ensures Walk(nodes, p) == At(Resolve(nodes, p).value, true, false)
  {
    if p != [] {
      WalkFindsResolved(nodes, p[..|p| - 1]);
    }
  }

  /** All proper prefixes of the path exist. */
  ghost predicate PrefixExists(nodes: seq<Node>, p: seq<string>)
    requires Tree(nodes)
  {
    p == [] || Resolve(nodes, p[..|p| - 1]).Some?
  }

  /** Then a lookup is exactly resolution. */
  lemma LookupIsResolve(nodes: seq<Node>, p: seq<string>)
    requires Tree(nodes) && PrefixExists(nodes, p)
    ensures Lookup(nodes, p) == Resolve(nodes, p)
  {
    if p != [] {
      WalkFindsResolved(nodes, p[..|p| - 1]);
    }
  }

  /** A component that does not exist in the folder the walk has reached is ignored: the path
      means the same without it, as long as another component follows. */
  lemma {:induction false} MissingIgnored(nodes: seq<Node>, p: seq<string>, name: string, q: seq<string>)
    requires Tree(nodes) && q != []
    requires var w := Walk(nodes, p); Traversable(nodes[w.dir]) && Entry(nodes, w.dir, name) == None
    ensures Walk(nodes, p + [name] + q) == Walk(nodes, p + q)
    decreases |q|
  {
    hide Tree, Walk, Entry;
    var n := |q| - 1;
    if n > 0 {
      MissingIgnored(nodes, p, name, q[..n]);
      WalkNext(nodes, p + [name] + q[..n], q[n]);
      WalkNext(nodes, p + q[..n], q[n]);
      assert p + [name] + q == p + [name] + q[..n] + [q[n]] && p + q == p + q[..n] + [q[n]];
    } else {
      WalkNext(nodes, p, name);
      WalkNext(nodes, p + [name], q[0]);
      WalkNext(nodes, p, q[0]);
      assert q == [q[0]];
    }
  }

  /** The components that name something, taken one after the other; those that name nothing are
      left out. */
  function Kept(nodes: seq<Node>, p: seq<string>): (r: seq<string>)
    requires Tree(nodes)
    ensures Resolve(nodes, r).Some?
  {
    if p == [] then []
    else
      var k := Kept(nodes, p[..|p| - 1]) + [p[|p| - 1]];
      if Resolve(nodes, k).Some? then k else Kept(nodes, p[..|p| - 1])
  }

  lemma ResolveNext(nodes: seq<Node>, p: seq<string>, name: string)
    requires Tree(nodes) && Resolve(nodes, p).Some?
    ensures Resolve(nodes, p + [name]) == Entry(nodes, Resolve(nodes, p).value, name)
  {
    assert (p + [name])[..|p|] == p;
  }

  /** The walk resolves what is kept of the path. */
  lemma {:induction false} WalkResolvesKept(nodes: seq<Node>, p: seq<string>)
    requires Tree(nodes)
    ensures Resolve(nodes, Kept(nodes, p)) == Some(Walk(nodes, p).dir)
    ensures p != [] ==> (Walk(nodes, p).found <==> Resolve(nodes, Kept(nodes, p[..|p| - 1]) + [p[|p| - 1]]).Some?)
  {
    if p != [] {
      var n := |p| - 1;
      WalkResolvesKept(nodes, p[..n]);
      ResolveNext(nodes, Kept(nodes, p[..n]), p[n]);
    }
  }

  /** All components are kept exactly when the path exists. */
  lemma {:induction false} KeptAll(nodes: seq<Node>, p: seq<string>)
    requires Tree(nodes)
    ensures |Kept(nodes, p)| <= |p|
    ensures Resolve(nodes, p).Some? <==> Kept(nodes, p) == p
    ensures Resolve(nodes, p).Some? <==> |Kept(nodes, p)| == |p|
  {
    if p != [] {
      var n := |p| - 1;
      KeptAll(nodes, p[..n]);
      assert p == p[..n] + [p[n]];
      if Resolve(nodes, p[..n]).Some? {
        ResolveNext(nodes, p[..n], p[n]);
      }
    }
  }

  /** A lookup is resolution of the path exactly when all proper prefixes exist, or what is kept
      of the prefix has no entry with the name of the last component. */
  lemma LookupExact(nodes: seq<Node>, p: seq<string>)
    requires Tree(nodes) && p != []
    ensures Lookup(nodes, p) == Resolve(nodes, p)
            <==> PrefixExists(nodes, p) || Resolve(nodes, Kept(nodes, p[..|p| - 1]) + [p[|p| - 1]]).None?
  {
    WalkResolvesKept(nodes, p);
    if PrefixExists(nodes, p) {
      LookupIsResolve(nodes, p);
    }
  }

  /** It does differ: with only a file `b` in the root, `/a/b` is `/b`. */
  lemma MissingFolderExample()
    ensures var nodes := [Node("", Folder, 0, [1]), Node("b", File, 0, [])];
            Tree(nodes) && Resolve(nodes, ["a", "b"]) == None && Lookup(nodes, ["a", "b"]) == Some(1)
  {
    var nodes := [Node("", Folder, 0, [1]), Node("b", File, 0, [])];
    assert DirOk(nodes, 0) && DirOk(nodes, 1);
    assert ["a", "b"][..1] == ["a"] && ["a"][..0] == [];
    assert Resolve(nodes, ["a"]) == None;
    assert Walk(nodes, ["a"]) == At(0, false, false);
    assert nodes[nodes[0].child[0]].name == "b";
  }

  // ----- creating a node -----

  /** A new node at the end of the children of `d`. */
  function Grown(nodes: seq<Node>, d: nat, name: string, kind: Kind): seq<Node>
    requires d < |nodes|
  {
    nodes[d := nodes[d].(child := nodes[d].child + [|nodes|])] + [Node(name, kind, d, [])]
  }

  lemma GrownTree(nodes: seq<Node>, d: nat, name: string, kind: Kind)
    requires Tree(nodes) && d < |nodes| && Traversable(nodes[d]) && Entry(nodes, d, name) == None
    requires 0 < |name| <= NAME_MAX && '/' !in name
    ensures Tree(Grown(nodes, d, name, kind))
  {
    var after := Grown(nodes, d, name, kind);
    forall e | 0 <= e < |after| ensures DirOk(after, e) {
      if e < |nodes| {
        assert DirOk(nodes, e);
        assert forall i :: 0 <= i < |nodes[e].child| ==>
          IsChild(nodes, e, nodes[e].child[i]) && after[e].child[i] == nodes[e].child[i];
      }
    }
  }

  /** Only the new entry is new. */
  lemma GrownEntry(nodes: seq<Node>, d: nat, name: string, kind: Kind, e: nat, other: string)
    requires Tree(nodes) && d < |nodes| && Traversable(nodes[d]) && Entry(nodes, d, name) == None
    requires Tree(Grown(nodes, d, name, kind)) && e <= |nodes|
    ensures Entry(Grown(nodes, d, name, kind), e, other)
            == if e == d && other == name then Some(|nodes|)
               else if e < |nodes| then Entry(nodes, e, other) else None
  {
    var after := Grown(nodes, d, name, kind);
    if e < |nodes| {
      assert DirOk(nodes, e) && DirOk(after, e);
      ChildGrown(nodes, d, name, kind, e, other, 0);
    }
  }

  lemma {:induction false} ChildGrown(nodes: seq<Node>, d: nat, name: string, kind: Kind, e: nat, other: string, i: nat)
    requires Tree(nodes) && d < |nodes| && e < |nodes| && i <= |nodes[e].child|
    requires Tree(Grown(nodes, d, name, kind))
    requires forall k :: 0 <= k < |nodes[e].child| ==> nodes[e].child[k] < |nodes|
    requires forall k :: 0 <= k < |Grown(nodes, d, name, kind)[e].child| ==>
               Grown(nodes, d, name, kind)[e].child[k] <= |nodes|
    ensures Child(Grown(nodes, d, name, kind), e, other, i)
            == if Child(nodes, e, other, i).Some? then Child(nodes, e, other, i)
               else if e == d && other == name then Some(|nodes|) else None
    decreases |nodes[e].child| - i
  {
    if i < |nodes[e].child| {
      ChildGrown(nodes, d, name, kind, e, other, i + 1);
    }
  }

  /** Creating a node adds exactly one entry to the map from paths to nodes. */
  lemma {:induction false} GrownResolve(nodes: seq<Node>, d: nat, name: string, kind: Kind, q: seq<string>)
    requires Tree(nodes) && d < |nodes| && Traversable(nodes[d]) && Entry(nodes, d, name) == None
    requires Tree(Grown(nodes, d, name, kind))
    ensures Resolve(Grown(nodes, d, name, kind), q)
            == if q != [] && q[|q| - 1] == name && Resolve(nodes, q[..|q| - 1]) == Some(d) then Some(|nodes|)
               else Resolve(nodes, q)
  {
    if q != [] {
      var p, last := q[..|q| - 1], q[|q| - 1];
      GrownResolve(nodes, d, name, kind, p);
      var after := Grown(nodes, d, name, kind);
      if Resolve(after, p).Some? {
        GrownEntry(nodes, d, name, kind, Resolve(after, p).value, last);
      }
    }
  }
}
