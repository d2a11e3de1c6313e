/** vfs_path_to_node of kernel/fs/filebase.c: tokenizer, walk and creation in one loop, over a
    tree that is updated in place. */
module Vfs {
  import opened Common
  import opened VfsTree

  /** VFS_MAX_PATH_LEN. */
  const PATH_MAX: nat := 4096

  /** The bits of `mode` that are tested. */
  datatype Mode = Mode(create: bool, errOnExist: bool)

  // ----- the components of a path -----

  /** The end of the token at `at`: the next slash or the end of the path. */
  function TokenEnd(s: string, at: nat): (e: nat)
    requires at <= |s|
    ensures at <= e <= |s| && '/' !in s[at..e] && (e < |s| ==> s[e] == '/')
    decreases |s| - at
  {
    if at == |s| || s[at] == '/' then at
    else
      var e := TokenEnd(s, at + 1);
      assert s[at..e] == [s[at]] + s[at + 1..e];
      e
  }

  /** The part of a token that takes part in comparisons and is stored as a name. */
  function Cut(token: string): string {
    if |token| > NAME_MAX then token[..NAME_MAX] else token
  }

  /** The components of the path from position `at` on; one trailing slash does not count. */
  function Components(s: string, at: nat): (r: seq<string>)
    ensures at < |s| ==> r != []
    decreases |s| - at
  {
    if at >= |s| then []
    else
      var e := TokenEnd(s, at);
      [Cut(s[at..e])] + Components(s, e + 1)
  }

  /** The last component of a path that does not end in a slash is a proper name. */
  lemma {:induction false} LastComponent(s: string, at: nat)
    requires at < |s| && s[|s| - 1] != '/'
    ensures var r := Components(s, at);
            r != [] && 0 < |r[|r| - 1]| <= NAME_MAX && '/' !in r[|r| - 1]
    decreases |s| - at
  {
    var e := TokenEnd(s, at);
    if e + 1 < |s| {
      LastComponent(s, e + 1);
    } else {
      assert e == |s|;
      assert forall i :: 0 <= i < |Cut(s[at..e])| ==> Cut(s[at..e])[i] == s[at..e][i];
    }
  }

  /** Joining names with slashes, and taking the path apart again. */
  function Join(p: seq<string>): string {
    if p == [] then "" else if |p| == 1 then p[0] else p[0] + "/" + Join(p[1..])
  }

  predicate ProperName(name: string) {
    0 < |name| <= NAME_MAX && '/' !in name
  }

  /** No part of the path between slashes is longer than a name may be. */
  ghost predicate ShortTokens(s: string) {
    forall i, j :: 0 <= i < j <= |s| && '/' !in s[i..j] ==> j - i <= NAME_MAX
  }

  /** Whatever the path, with empty parts or not: its components have no slash, and joining them gives
      the path, but for one slash at its end. */
  lemma {:induction false} ComponentsJoin(s: string, at: nat)
    requires at < |s| && ShortTokens(s)
    ensures var r := Components(s, at);
            && (forall i :: 0 <= i < |r| ==> '/' !in r[i])
            && (s[at..] == Join(r) || s[at..] == Join(r) + "/")
    decreases |s| - at
  {
    hide TokenEnd, Components, Join, ShortTokens;
    var e := TokenEnd(s, at);
    Uncut(s, at, e);
    ComponentsStep(s, at, e);
    if e + 1 < |s| {
      ComponentsJoin(s, e + 1);
      JoinMore(s, at, e, Components(s, e + 1));
    } else {
      EndsHere(s, at, e);
      JoinOne(s[at..e]);
      assert Components(s, at) == [s[at..e]];
    }
  }

  lemma Uncut(s: string, at: nat, e: nat)
    requires ShortTokens(s) && at <= e <= |s| && '/' !in s[at..e]
    ensures Cut(s[at..e]) == s[at..e]
  {
  }

  lemma JoinOne(name: string)
    ensures Join([name]) == name
  {
  }

  lemma JoinMore(s: string, at: nat, e: nat, rest: seq<string>)
    requires at <= e < |s| && s[e] == '/' && rest != []
    requires s[e + 1..] == Join(rest) || s[e + 1..] == Join(rest) + "/"
    ensures s[at..] == Join([s[at..e]] + rest) || s[at..] == Join([s[at..e]] + rest) + "/"
  {
    var all := [s[at..e]] + rest;
    assert all[1..] == rest;
    hide Join;
    JoinStep(all);
    AtSlash(s, at, e);
    Concat(s[at..e], Join(rest));
  }

  lemma AtSlash(s: string, at: nat, e: nat)
    requires at <= e < |s| && s[e] == '/'
    ensures s[at..] == s[at..e] + "/" + s[e + 1..]
  {
  }

  lemma Concat(a: string, b: string)
    ensures a + "/" + (b + "/") == a + "/" + b + "/"
  {
  }

  lemma JoinStep(all: seq<string>)
    requires |all| > 1
    ensures Join(all) == all[0] + "/" + Join(all[1..])
  {
  }

  lemma EndsHere(s: string, at: nat, e: nat)
    requires at <= e <= |s| <= e + 1 && (e < |s| ==> s[e] == '/')
    ensures Components(s, e + 1) == [] && s[at..] == if e < |s| then s[at..e] + "/" else s[at..e]
  {
  }

  lemma {:induction false} JoinComponents(pre: string, p: seq<string>)
    requires p != [] && forall i :: 0 <= i < |p| ==> ProperName(p[i])
    ensures Components(pre + Join(p), |pre|) == p
    decreases |p|
  {
    hide TokenEnd, Components;
    var s := pre + Join(p);
    assert ProperName(p[0]);
    if |p| == 1 {
      OneComponent(pre, p[0], "");
      assert s == pre + p[0] + "";
    } else {
      OneComponent(pre, p[0], "/" + Join(p[1..]));
      var pre' := pre + p[0] + "/";
      assert s == pre' + Join(p[1..]) == pre + p[0] + ("/" + Join(p[1..]));
      JoinComponents(pre', p[1..]);
    }
  }

  /** A name followed by the end of the path or a slash is a component. */
  lemma OneComponent(pre: string, name: string, rest: string)
    requires ProperName(name) && (rest != "" ==> rest[0] == '/')
    ensures var s := pre + name + rest;
            Components(s, |pre|) == [name] + if rest == "" then [] else Components(s, |pre| + |name| + 1)
  {
    hide TokenEnd, Components;
    var s := pre + name + rest;
    var e := |pre| + |name|;
    NameAt(pre, name, rest);
    TokenEndIs(s, |pre|, e);
    ComponentsStep(s, |pre|, e);
  }

  lemma NameAt(pre: string, name: string, rest: string)
    ensures var s, e := pre + name + rest, |pre| + |name|;
            && |s| == e + |rest| && s[|pre|..e] == name && (forall i :: |pre| <= i < e ==> s[i] == name[i - |pre|])
            && (rest != "" ==> s[e] == rest[0])
  {
  }

  lemma ComponentsStep(s: string, at: nat, e: nat)
    requires at < |s| && TokenEnd(s, at) == e
    ensures Components(s, at) == [Cut(s[at..e])] + if e == |s| then [] else Components(s, e + 1)
  {
    hide TokenEnd;
  }

  lemma {:induction false} TokenEndIs(s: string, at: nat, e: nat)
    requires at <= e <= |s| && (forall i :: at <= i < e ==> s[i] != '/') && (e < |s| ==> s[e] == '/')
    ensures TokenEnd(s, at) == e
    decreases e - at
  {
    if at < e {
      TokenEndIs(s, at + 1, e);
    }
  }

  /** The invariant of the loop: the components before `at` are walked. */
  ghost predicate Progress(nodes: seq<Node>, s: string, at: nat, done: seq<string>, curr: nat, found: bool) {
    && Tree(nodes) && at <= |s| + 1 && Walk(nodes, done) == At(curr, found, false)
    && Components(s, 0) == done + Components(s, at)
    && (done == [] <==> at == 0)
    && (at == |s| > 0 ==> s[|s| - 1] == '/') && (at == |s| + 1 ==> s != "" && s[|s| - 1] != '/')
  }

  lemma WalkStart(nodes: seq<Node>, s: string)
    requires Tree(nodes)
    ensures Progress(nodes, s, 0, [], 0, true)
  {
  }

  /** One round of the loop. */
  lemma Advance(nodes: seq<Node>, s: string, at: nat, done: seq<string>, curr: nat, found: bool)
    requires Progress(nodes, s, at, done, curr, found) && at < |s|
    ensures var e := TokenEnd(s, at);
            var name := Cut(s[at..e]);
            if !Traversable(nodes[curr]) then Walk(nodes, Components(s, 0)) == At(curr, false, true)
            else match Entry(nodes, curr, name)
                 case Some(c) => Progress(nodes, s, e + 1, done + [name], c, true)
                 case None => Progress(nodes, s, e + 1, done + [name], curr, false)
  {
    hide TokenEnd, Components, Cut, Walk, Tree, Entry;
    var e := TokenEnd(s, at);
    var name := Cut(s[at..e]);
    SplitAt(s, at, done);
    SlashAt(s, at);
    WalkNext(nodes, done, name);
    if !Traversable(nodes[curr]) {
      StuckStays(nodes, done + [name], Components(s, e + 1));
    }
  }

  lemma SplitAt(s: string, at: nat, done: seq<string>)
    requires at < |s|
    ensures var e := TokenEnd(s, at);
            done + Components(s, at) == done + [Cut(s[at..e])] + Components(s, e + 1)
  {
    hide TokenEnd, Cut;
    var e := TokenEnd(s, at);
    var name, rest := Cut(s[at..e]), Components(s, e + 1);
    assert Components(s, at) == [name] + rest;
    hide Components;
    assert done + ([name] + rest) == done + [name] + rest;
  }

  lemma SlashAt(s: string, at: nat)
    requires at < |s|
    ensures var e := TokenEnd(s, at);
            (e + 1 == |s| ==> s[|s| - 1] == '/') && (e == |s| ==> s[|s| - 1] != '/')
  {
    hide TokenEnd;
    var e := TokenEnd(s, at);
    if e == |s| {
      assert s[|s| - 1] == s[at..e][|s| - 1 - at];
    }
  }

  lemma WalkEnd(nodes: seq<Node>, s: string, at: nat, done: seq<string>, curr: nat, found: bool)
    requires Progress(nodes, s, at, done, curr, found) && at >= |s|
    ensures done == Components(s, 0) && Walk(nodes, done) == At(curr, found, false)
    ensures s != "" ==> (at > |s| <==> s[|s| - 1] != '/')
    ensures !found ==> s != ""
  {
  }

  class FileBase {
    /** The tree; node 0 is `vfs_root`. */
    var nodes: seq<Node>
    const tmpbuff: array<char>

    ghost predicate Valid()
      reads this`nodes
    {
      Tree(nodes) && Traversable(nodes[0]) && tmpbuff.Length == PATH_MAX
    }

    /** The root folder of `vfs_init`. */
    constructor ()
      ensures Valid() && nodes == [Node("", Folder, 0, [])] && fresh(tmpbuff)
    {
      nodes := [Node("", Folder, 0, [])];
      tmpbuff := new char[PATH_MAX];
    }

    /** The inner loop that copies the next token. */
    method NextToken(s: string, at: nat) returns (len: nat)
      requires at <= |s| < PATH_MAX && tmpbuff.Length == PATH_MAX
      modifies tmpbuff
      ensures at + len == TokenEnd(s, at) && tmpbuff[..len] == s[at..at + len]
    {
      var i := 0;
      while at + i < |s|
        invariant at + i <= TokenEnd(s, at) && tmpbuff[..i] == s[at..at + i]
      {
        if s[at + i] == '/' {
          break;
        }
        tmpbuff[i] := s[at + i];
        i := i + 1;
      }
      tmpbuff[i] := '\0';
      return i;
    }

    /** The search for the token among the children of a node, by `strncmp` over the size of
        the name field. */
    method FindChild(d: nat, name: string) returns (r: Option<nat>)
      requires Valid() && d < |nodes|
      ensures r == Entry(nodes, d, name)
    {
      assert DirOk(nodes, d);
      var child := nodes[d].child;
      for i := 0 to |child|
        invariant Child(nodes, d, name, i) == Child(nodes, d, name, 0)
      {
        if nodes[child[i]].name == name {
          return Some(child[i]);
        }
      }
      return None;
    }

    /** `vfs_alloc_inode`, `vfs_alloc_tnode` and the push to the children. */
    method AddNode(d: nat, name: string, kind: Kind) returns (n: nat)
      requires Valid() && d < |nodes| && Traversable(nodes[d]) && Entry(nodes, d, name) == None
      requires 0 < |name| <= NAME_MAX && '/' !in name
      modifies this`nodes
      ensures Valid() && nodes == Grown(old(nodes), d, name, kind) && n == |old(nodes)|
    {
      GrownTree(nodes, d, name, kind);
      n := |nodes|;
      nodes := nodes + [Node(name, kind, d, [])];
      nodes := nodes[d := nodes[d].(child := nodes[d].child + [n])];
      assert nodes == Grown(old(nodes), d, name, kind);
    }

    /** The loop: the components from left to right.  Returns where it ended, the index it
        ended at, and the length of the last token, which is left in `tmpbuff`. */
    method WalkPath(s: string) returns (curr: nat, found: bool, at: nat, len: nat)
      requires Valid() && |s| < PATH_MAX
      modifies tmpbuff
      ensures var w := Walk(nodes, Components(s, 0)); curr == w.dir && found == w.found
      ensures !found && Traversable(nodes[curr]) ==>
                s != "" && (at > |s| <==> s[|s| - 1] != '/') && len <= PATH_MAX
                && Cut(tmpbuff[..len]) == Components(s, 0)[|Components(s, 0)| - 1]
    {
      hide Tree, Walk, Components, TokenEnd, Cut;
      curr, found, at, len := 0, true, 0, 0;
      ghost var done: seq<string> := [];
      WalkStart(nodes, s);
      while at < |s|
        invariant Progress(nodes, s, at, done, curr, found)
        invariant done != [] ==> len <= PATH_MAX && Cut(tmpbuff[..len]) == done[|done| - 1]
        decreases |s| + 1 - at
      {
        len := NextToken(s, at);
        ghost var from, wasFound := at, found;
        at := at + len + 1;
        found := false;
        Advance(nodes, s, from, done, curr, wasFound);
        if !Traversable(nodes[curr]) {
          return;
        }
        var child := FindChild(curr, Cut(tmpbuff[..len]));
        done := done + [Cut(s[from..from + len])];
        if child.Some? {
          found := true;
          curr := child.value;
        }
      }
      WalkEnd(nodes, s, at, done, curr, found);
    }

    /** `vfs_path_to_node`. */
    method PathToNode(path: string, mode: Mode, kind: Kind) returns (r: Option<nat>)
      requires Valid() && |path| <= PATH_MAX
      modifies this`nodes, tmpbuff
      ensures Valid() && (r, nodes) == Answer(old(nodes), path, mode, kind)
    {
      AnswerIs(nodes, path, mode, kind);
      hide Tree, Walk, Components, Cut, Answer;
      if path == "" || path[0] != '/' {
        return None;
      }
      var s := path[1..];
      var curr, found, at, len := WalkPath(s);
      if !found {
        if !Traversable(nodes[curr]) {
          return None;
        }
        if mode.create && at > |s| {
          var n := AddNode(curr, Cut(tmpbuff[..len]), kind);
          return Some(n);
        }
        return None;
      }
      if mode.errOnExist {
        return None;
      }
      return Some(curr);
    }
  }

  /** What vfs_path_to_node returns, and the tree after it. */
  function Answer(nodes: seq<Node>, path: string, mode: Mode, kind: Kind): (Option<nat>, seq<Node>)
    requires Tree(nodes)
  {
    if path == "" || path[0] != '/' then (None, nodes)
    else
      var s := path[1..];
      var p := Components(s, 0);
      var w := Walk(nodes, p);
      if w.found then (if mode.errOnExist then None else Some(w.dir), nodes)
      else if !Traversable(nodes[w.dir]) || !mode.create || p == [] || s[|s| - 1] == '/' then (None, nodes)
      else (Some(|nodes|), Grown(nodes, w.dir, p[|p| - 1], kind))
  }

  /** When a node is created, its folder has no such entry and its name is a proper one. */
  lemma AnswerIs(nodes: seq<Node>, path: string, mode: Mode, kind: Kind)
    requires Tree(nodes)
    ensures path != "" && path[0] == '/' ==>
              var s := path[1..];
              var p := Components(s, 0);
              var w := Walk(nodes, p);
              if w.found then Answer(nodes, path, mode, kind) == (if mode.errOnExist then None else Some(w.dir), nodes)
              else if !Traversable(nodes[w.dir]) || !mode.create || s[|s| - 1] == '/'
              then s != "" && Answer(nodes, path, mode, kind) == (None, nodes)
              else s != "" && p != [] && ProperName(p[|p| - 1]) && Entry(nodes, w.dir, p[|p| - 1]) == None
                   && Answer(nodes, path, mode, kind) == (Some(|nodes|), Grown(nodes, w.dir, p[|p| - 1], kind))
    ensures path == "" || path[0] != '/' ==> Answer(nodes, path, mode, kind) == (None, nodes)
  {
    if path != "" && path[0] == '/' {
      var s := path[1..];
      var p := Components(s, 0);
      if !Walk(nodes, p).found && Traversable(nodes[Walk(nodes, p).dir]) {
        WalkMissed(nodes, p);
        if s[|s| - 1] != '/' {
          LastComponent(s, 0);
        }
      }
    }
  }
}
