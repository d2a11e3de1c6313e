/** What callers of vfs_path_to_node may rely on, over one call and over any run of calls. */
module VfsRuns {
  import opened Common
  import opened VfsTree
  import opened Vfs

  /** The components of an absolute path. */
  function Names(path: string): seq<string> {
    if path == "" then [] else Components(path[1..], 0)
  }

  /** Every list of proper names is the components of some path. */
  lemma NamesOfPath(p: seq<string>)
    requires p != [] && forall i :: 0 <= i < |p| ==> ProperName(p[i])
    ensures Names("/" + Join(p)) == p
  {
    JoinComponents("", p);
    assert "" + Join(p) == Join(p) == ("/" + Join(p))[1..];
  }

  predicate Absolute(path: string) {
    path != "" && path[0] == '/'
  }

  datatype Call = Call(path: string, mode: Mode, kind: Kind)

  function Result(nodes: seq<Node>, c: Call): Option<nat>
    requires Tree(nodes)
  {
    Answer(nodes, c.path, c.mode, c.kind).0
  }

  function After(nodes: seq<Node>, c: Call): seq<Node>
    requires Tree(nodes)
  {
    Answer(nodes, c.path, c.mode, c.kind).1
  }

  /** A call keeps the tree, and with it unique names among siblings; it adds at most one
      entry to the map from component lists to nodes and changes no other. */
  lemma CallKeeps(nodes: seq<Node>, c: Call, q: seq<string>)
    requires Tree(nodes)
    ensures Tree(After(nodes, c)) && |nodes| <= |After(nodes, c)|
    ensures Resolve(nodes, q).Some? ==> Resolve(After(nodes, c), q) == Resolve(nodes, q)
    ensures Resolve(After(nodes, c), q) != Resolve(nodes, q) ==>
              Result(nodes, c) == Some(|nodes|) == Resolve(After(nodes, c), q)
              && q != [] && Names(c.path) != [] && q[|q| - 1] == Names(c.path)[|Names(c.path)| - 1]
    ensures forall n :: 0 <= n < |nodes| ==>
              var before, after := nodes[n], After(nodes, c)[n];
              after.kind == before.kind && after.name == before.name && after.parent == before.parent
    ensures After(nodes, c) != nodes ==>
              && |After(nodes, c)| == |nodes| + 1
              && After(nodes, c)[|nodes|].kind == c.kind && After(nodes, c)[|nodes|].child == []
  {
    hide Answer, Walk, Entry, Components, Resolve, Tree;
    var p := Names(c.path);
    if After(nodes, c) != nodes {
      Creates(nodes, c);
      var d, name := Walk(nodes, p).dir, p[|p| - 1];
      GrownTree(nodes, d, name, c.kind);
      GrownResolve(nodes, d, name, c.kind, q);
      if Resolve(nodes, q).Some? && q != [] {
        ResolvedEntry(nodes, q);
      }
    }
  }

  /** A call that changes the tree adds the last component to the folder the walk ended in. */
  lemma Creates(nodes: seq<Node>, c: Call)
    requires Tree(nodes) && After(nodes, c) != nodes
    ensures var p, d := Names(c.path), Walk(nodes, Names(c.path)).dir;
            && p != [] && !Walk(nodes, p).found && Traversable(nodes[d])
            && ProperName(p[|p| - 1]) && Entry(nodes, d, p[|p| - 1]) == None
            && After(nodes, c) == Grown(nodes, d, p[|p| - 1], c.kind) && Result(nodes, c) == Some(|nodes|)
  {
    hide Components, Walk, Entry;
    AnswerIs(nodes, c.path, c.mode, c.kind);
  }

  lemma ResolvedEntry(nodes: seq<Node>, q: seq<string>)
    requires Tree(nodes) && Resolve(nodes, q).Some? && q != []
    ensures Resolve(nodes, q[..|q| - 1]).Some?
    ensures Entry(nodes, Resolve(nodes, q[..|q| - 1]).value, q[|q| - 1]) == Resolve(nodes, q)
  {
  }

  /** When all proper prefixes of the path exist, a call is what its name says: it finds the
      node of the path, or creates it if asked to and the path names one. */
  lemma CallResolves(nodes: seq<Node>, c: Call)
    requires Tree(nodes) && Absolute(c.path) && PrefixExists(nodes, Names(c.path))
    ensures var p, after := Names(c.path), After(nodes, c);
            && (Resolve(nodes, p).Some? ==>
                after == nodes && Result(nodes, c) == if c.mode.errOnExist then None else Resolve(nodes, p))
            && (Resolve(nodes, p).None? ==>
                var folder := nodes[Resolve(nodes, p[..|p| - 1]).value].kind;
                var creates := c.mode.create && c.path[|c.path| - 1] != '/'
                               && (folder == Folder || folder == MountPoint);
                if creates
                then Tree(after) && |after| == |nodes| + 1 && Result(nodes, c) == Some(|nodes|) == Resolve(after, p)
                     && after[|nodes|].kind == c.kind
                else after == nodes && Result(nodes, c) == None)
  {
    hide Answer, Walk, Entry, Components, Tree, Grown, Resolve;
    var p := Names(c.path);
    AnswerIs(nodes, c.path, c.mode, c.kind);
    if Resolve(nodes, p).Some? {
      WalkFindsResolved(nodes, p);
    } else {
      var d := MissingIn(nodes, p);
      GrownLast(nodes, d, p[|p| - 1], c.kind);
      if After(nodes, c) != nodes {
        GrownTree(nodes, d, p[|p| - 1], c.kind);
        GrownResolve(nodes, d, p[|p| - 1], c.kind, p);
      }
    }
  }

  /** What a list of names leads to is found by joining the names with slashes, and what it could
      lead to is created by it: a call with that path returns the node, or adds the entry exactly
      when asked to and the names before the last lead to a folder. */
  lemma FoundByNames(nodes: seq<Node>, q: seq<string>, c: Call)
    requires Tree(nodes) && q != [] && PrefixExists(nodes, q) && c.path == "/" + Join(q)
    requires Resolve(nodes, q).None? ==> ProperName(q[|q| - 1])
    ensures var after := After(nodes, c);
            && (Resolve(nodes, q).Some? ==>
                after == nodes && Result(nodes, c) == if c.mode.errOnExist then None else Resolve(nodes, q))
            && (Resolve(nodes, q).None? ==>
                var folder := nodes[Resolve(nodes, q[..|q| - 1]).value].kind;
                if c.mode.create && (folder == Folder || folder == MountPoint)
                then Tree(after) && |after| == |nodes| + 1 && Result(nodes, c) == Some(|nodes|) == Resolve(after, q)
                else after == nodes && Result(nodes, c) == None)
  {
    hide After, Tree, Join, Names, ProperName;
    AllProper(nodes, q);
    NamesOfPath(q);
    NoTrailingSlash(q);
    CallResolves(nodes, c);
  }

  /** A path that goes on through a file or a device leads nowhere: no node has it, and a call with it
      fails and creates nothing, whatever its mode. */
  lemma ThroughFile(nodes: seq<Node>, q: seq<string>, more: seq<string>, c: Call)
    requires Tree(nodes) && Resolve(nodes, q).Some? && more != [] && Names(c.path) == q + more
    requires var kind := nodes[Resolve(nodes, q).value].kind; kind == File || kind == BlockDevice || kind == CharDevice
    ensures Resolve(nodes, q + more) == None
    ensures After(nodes, c) == nodes && Result(nodes, c) == None
  {
    hide Answer, Walk, Entry, Components, Tree, Resolve;
    WalkFindsResolved(nodes, q);
    WalkNext(nodes, q, more[0]);
    StuckStays(nodes, q + [more[0]], more[1..]);
    assert q + more == q + [more[0]] + more[1..];
    AnswerIs(nodes, c.path, c.mode, c.kind);
    if Resolve(nodes, q + more).Some? {
      WalkFindsResolved(nodes, q + more);
    }
  }

  /** The names of a path that exists are proper, and so are those of a path that could. */
  lemma {:induction false} AllProper(nodes: seq<Node>, q: seq<string>)
    requires Tree(nodes) && PrefixExists(nodes, q)
    requires q != [] && Resolve(nodes, q).None? ==> ProperName(q[|q| - 1])
    ensures forall i :: 0 <= i < |q| ==> ProperName(q[i])
  {
    hide Tree, Entry, Resolve, ProperName;
    if q != [] {
      var n := |q| - 1;
      if Resolve(nodes, q).Some? {
        ResolvedEntry(nodes, q);
        EntryProper(nodes, Resolve(nodes, q[..n]).value, q[n]);
      }
      ResolvedPrefix(nodes, q[..n]);
      AllProper(nodes, q[..n]);
      assert forall i :: 0 <= i < n ==> q[..n][i] == q[i];
    }
  }

  lemma EntryProper(nodes: seq<Node>, d: nat, name: string)
    requires Tree(nodes) && d < |nodes| && Entry(nodes, d, name).Some?
    ensures ProperName(name)
  {
    assert DirOk(nodes, d);
  }

  lemma {:induction false} NoTrailingSlash(q: seq<string>)
    requires q != [] && forall i :: 0 <= i < |q| ==> ProperName(q[i])
    ensures Join(q) != "" && Join(q)[|Join(q)| - 1] != '/'
  {
    if |q| > 1 {
      NoTrailingSlash(q[1..]);
    }
  }

  /** Where the walk ends when only the last component is missing. */
  lemma MissingIn(nodes: seq<Node>, p: seq<string>) returns (d: nat)
    requires Tree(nodes) && PrefixExists(nodes, p) && Resolve(nodes, p).None?
    ensures p != [] && d < |nodes| && Resolve(nodes, p[..|p| - 1]) == Some(d)
    ensures !Walk(nodes, p).found && Walk(nodes, p).dir == d
  {
    hide Tree, Entry;
    d := Resolve(nodes, p[..|p| - 1]).value;
    LookupIsResolve(nodes, p);
    WalkFindsResolved(nodes, p[..|p| - 1]);
  }

  lemma GrownLast(nodes: seq<Node>, d: nat, name: string, kind: Kind)
    requires d < |nodes|
    ensures |Grown(nodes, d, name, kind)| == |nodes| + 1 && Grown(nodes, d, name, kind)[|nodes|].kind == kind
  {
  }

  /** A call that creates a node creates it where the path says exactly when all proper prefixes
      of the path exist; otherwise in the folder that what is kept of the prefix leads to. */
  lemma CreatedWhere(nodes: seq<Node>, c: Call)
    requires Tree(nodes) && After(nodes, c) != nodes
    ensures var p, after := Names(c.path), After(nodes, c);
            && Tree(after) && p != [] && Result(nodes, c) == Some(|nodes|)
            && (Resolve(after, p) == Result(nodes, c) <==> PrefixExists(nodes, p))
            && Resolve(after, Kept(nodes, p[..|p| - 1]) + [p[|p| - 1]]) == Result(nodes, c)
  {
    hide Answer, Walk, Entry, Components, Tree, Kept, Resolve, Grown;
    var p := Names(c.path);
    Creates(nodes, c);
    var n := |p| - 1;
    var d := Walk(nodes, p).dir;
    MissedWhere(nodes, p);
    GrownTree(nodes, d, p[n], c.kind);
    GrownResolve(nodes, d, p[n], c.kind, p);
    var k := Kept(nodes, p[..n]) + [p[n]];
    assert k[..|k| - 1] == Kept(nodes, p[..n]);
    GrownResolve(nodes, d, p[n], c.kind, k);
  }

  /** Where the walk ends when its last component is missing from a folder. */
  lemma MissedWhere(nodes: seq<Node>, p: seq<string>)
    requires Tree(nodes) && p != [] && Entry(nodes, Walk(nodes, p).dir, p[|p| - 1]) == None
    requires !Walk(nodes, p).found && Traversable(nodes[Walk(nodes, p).dir])
    ensures var n, d := |p| - 1, Walk(nodes, p).dir;
            && Resolve(nodes, Kept(nodes, p[..n])) == Some(d)
            && (PrefixExists(nodes, p) <==> Resolve(nodes, p[..n]) == Some(d))
            && Resolve(nodes, p) == None
  {
    var n := |p| - 1;
    WalkResolvesKept(nodes, p[..n]);
    WalkResolvesKept(nodes, p);
    if Resolve(nodes, p[..n]).Some? {
      KeptAll(nodes, p[..n]);
    } else {
      assert Resolve(nodes, p) == None;
    }
  }

  /** A call that changes nothing and does not insist on creating returns the node of its path, or
      none when there is none, exactly when all proper prefixes exist or what is kept of the
      prefix has no entry of the last name. */
  lemma FoundWhere(nodes: seq<Node>, c: Call)
    requires Tree(nodes) && Absolute(c.path) && Names(c.path) != []
    requires After(nodes, c) == nodes && !c.mode.errOnExist
    ensures var p := Names(c.path);
            Result(nodes, c) == Resolve(nodes, p)
            <==> PrefixExists(nodes, p) || Resolve(nodes, Kept(nodes, p[..|p| - 1]) + [p[|p| - 1]]).None?
  {
    hide Components, Walk, Entry, Kept;
    AnswerIs(nodes, c.path, c.mode, c.kind);
    LookupExact(nodes, Names(c.path));
  }

  /** So a node that was created is found again by its path, by any later call that does not
      insist on creating, and is not created twice. */
  lemma CreatedIsFound(nodes: seq<Node>, c: Call, again: Call)
    requires Tree(nodes) && Absolute(c.path) && PrefixExists(nodes, Names(c.path))
    requires Result(nodes, c).Some? && again.path == c.path
    ensures var after := After(nodes, c);
            && Tree(after) && After(after, again) == after
            && Result(after, again) == if again.mode.errOnExist then None else Result(nodes, c)
  {
    CallResolves(nodes, c);
    CallKeeps(nodes, c, Names(c.path));
    var after := After(nodes, c);
    hide Answer, Resolve, Components;
    ResolvedPrefix(after, Names(c.path));
    CallResolves(after, again);
  }

  lemma ResolvedPrefix(nodes: seq<Node>, p: seq<string>)
    requires Tree(nodes) && Resolve(nodes, p).Some?
    ensures PrefixExists(nodes, p)
  {
  }

  /** `trees` goes through the calls one after the other. */
  ghost predicate IsRun(trees: seq<seq<Node>>, calls: seq<Call>) {
    && |trees| == |calls| + 1
    && forall k :: 0 <= k < |calls| ==> (Tree(trees[k]) ==> trees[k + 1] == After(trees[k], calls[k]))
  }

  /** Over every run from a tree: siblings keep unique names, and every path that ever led to a
      node leads to it for good and is its only path. */
  lemma {:induction false} RunKeeps(trees: seq<seq<Node>>, calls: seq<Call>, k: nat, q: seq<string>)
    requires IsRun(trees, calls) && Tree(trees[0]) && k <= |calls|
    ensures Tree(trees[k]) && Tree(trees[|calls|])
    ensures Resolve(trees[k], q).Some? ==> Resolve(trees[|calls|], q) == Resolve(trees[k], q)
    ensures Resolve(trees[k], q).Some? ==>
              forall p :: Resolve(trees[|calls|], p) == Resolve(trees[k], q) ==> p == q
    decreases |calls|
  {
    hide After, Resolve, Tree;
    if calls != [] {
      var n := |calls| - 1;
      RunKeeps(trees[..n + 1], calls[..n], if k <= n then k else n, q);
      CallKeeps(trees[n], calls[n], q);
    }
    forall p | Resolve(trees[k], q).Some? && Resolve(trees[|calls|], p) == Resolve(trees[k], q) ensures p == q {
      PathUnique(trees[|calls|], p, q);
    }
  }
}
