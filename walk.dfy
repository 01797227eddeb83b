/** The recursive walks of expandNode (`updateTree`, src/lib/filesystem.js:79-91)
    and refreshTreeNode (`update`, src/lib/filesystem.js:159-169): a depth-first,
    pre-order search for the first node whose key `${prefix}/${name}` (with the
    first "//" collapsed) equals a target path. The prefix is a parameter; in the
    source it is the same text at every depth (Keying.SamePrefix). */
module Walk {
  import opened Wrappers
  import opened Paths
  import opened Nodes

  /** A position is the list of child indices leading from the top-level list to a
      node. It is reachable when every node on the way down is a folder, since the
      walk only descends into folders. */
  predicate Reachable(tree: seq<Node>, p: seq<nat>)
    decreases |p|
  {
    && |p| > 0 && p[0] < |tree|
    && (|p| == 1 || (tree[p[0]].isDir && Reachable(tree[p[0]].children, p[1..])))
  }

  function NodeAt(tree: seq<Node>, p: seq<nat>): Node
    requires Reachable(tree, p)
    decreases |p|
  {
    if |p| == 1 then tree[p[0]] else NodeAt(tree[p[0]].children, p[1..])
  }

  /** The key the walk compares against the target. */
  function Key(prefix: string, n: Node): string
  {
    Join(prefix, n.name)
  }

  /** How the walk builds the prefix it hands to a folder's children: the same text
      at every depth, as both walks of the source do, or the key of the folder
      itself, so that every node is compared through its own path. */
  datatype Keying = SamePrefix | ParentKey

  function ChildPrefix(k: Keying, prefix: string, n: Node): string
  {
    if k == ParentKey then Key(prefix, n) else prefix
  }

  /** The key the walk compares for the node at p. */
  function KeyAt(tree: seq<Node>, k: Keying, prefix: string, p: seq<nat>): string
    requires Reachable(tree, p)
    decreases |p|
  {
    if |p| == 1 then Key(prefix, tree[p[0]])
    else KeyAt(tree[p[0]].children, k, ChildPrefix(k, prefix, tree[p[0]]), p[1..])
  }

  /** With the same prefix at every depth, a node's key depends on its own name only. */
  lemma {:induction false} KeyAtSamePrefix(tree: seq<Node>, prefix: string, p: seq<nat>)
    requires Reachable(tree, p)
    ensures KeyAt(tree, SamePrefix, prefix, p) == Key(prefix, NodeAt(tree, p))
    decreases |p|
  {
    if |p| > 1 {
      KeyAtSamePrefix(tree[p[0]].children, prefix, p[1..]);
    }
  }

  /** The node at p is one the walk would act on. */
  predicate Hit(tree: seq<Node>, k: Keying, prefix: string, target: string, p: seq<nat>)
  {
    Reachable(tree, p) && KeyAt(tree, k, prefix, p) == target
  }

  /** Depth-first pre-order: the node at q is visited before the node at p (an
      ancestor before its descendants, earlier siblings' subtrees before later ones). */
  predicate VisitedBefore(q: seq<nat>, p: seq<nat>)
    decreases |p|
  {
    && |q| > 0 && |p| > 0
    && (q[0] < p[0] || (q[0] == p[0] && |p| > 1 && (|q| == 1 || VisitedBefore(q[1..], p[1..]))))
  }

  /** The loop `for (const n of tree)` from index i on: test n, then descend into n
      if it is a folder, returning at the first success. */
  function FirstMatchFrom(tree: seq<Node>, i: nat, k: Keying, prefix: string, target: string): (r: Option<seq<nat>>)
    requires i <= |tree|
    ensures r.Some? ==> Hit(tree, k, prefix, target, r.value) && r.value[0] >= i
    decreases tree, |tree| - i
  {
    if i == |tree| then None
    else if Key(prefix, tree[i]) == target then Some([i])
    else if tree[i].isDir && FirstMatchFrom(tree[i].children, 0, k, ChildPrefix(k, prefix, tree[i]), target).Some? then
      Some([i] + FirstMatchFrom(tree[i].children, 0, k, ChildPrefix(k, prefix, tree[i]), target).value)
    else FirstMatchFrom(tree, i + 1, k, prefix, target)
  }

  /** The position the walk acts on, or None when it returns false. */
  function FirstMatch(tree: seq<Node>, k: Keying, prefix: string, target: string): (r: Option<seq<nat>>)
    ensures r.Some? ==> Hit(tree, k, prefix, target, r.value)
  {
    FirstMatchFrom(tree, 0, k, prefix, target)
  }

  /** A reachable position below tree[i] is a reachable position of its children,
      keyed under the prefix handed to them. */
  lemma Descend(tree: seq<Node>, i: nat, k: Keying, prefix: string)
    requires i < |tree|
    ensures forall q :: Reachable(tree, q) && q[0] == i && |q| > 1 ==>
              && tree[i].isDir && Reachable(tree[i].children, q[1..])
              && NodeAt(tree, q) == NodeAt(tree[i].children, q[1..])
              && KeyAt(tree, k, prefix, q) == KeyAt(tree[i].children, k, ChildPrefix(k, prefix, tree[i]), q[1..])
  {
  }

  lemma {:induction false} FirstMatchFromMeaning(tree: seq<Node>, i: nat, k: Keying, prefix: string, target: string)
    requires i <= |tree|
    ensures FirstMatchFrom(tree, i, k, prefix, target).Some? ==>
              forall q :: Hit(tree, k, prefix, target, q) && q[0] >= i ==>
                !VisitedBefore(q, FirstMatchFrom(tree, i, k, prefix, target).value)
    ensures FirstMatchFrom(tree, i, k, prefix, target).None? ==>
              forall q :: Hit(tree, k, prefix, target, q) ==> q[0] < i
    decreases tree, |tree| - i
  {
    if i < |tree| && Key(prefix, tree[i]) != target {
      var n := tree[i];
      var cp := ChildPrefix(k, prefix, n);
      var sub := FirstMatchFrom(n.children, 0, k, cp, target);
      if n.isDir {
        FirstMatchFromMeaning(n.children, 0, k, cp, target);
      }
      if n.isDir && sub.Some? {
        FirstHitBelow(tree, i, k, prefix, target, sub.value);
      } else {
        FirstMatchFromMeaning(tree, i + 1, k, prefix, target);
        NoHitAt(tree, i, k, prefix, target);
      }
    }
  }

  /** When tree[i] does not match, the first hit below it comes before every other
      hit from index i on. */
  lemma FirstHitBelow(tree: seq<Node>, i: nat, k: Keying, prefix: string, target: string, sub: seq<nat>)
    requires i < |tree| && tree[i].isDir && Key(prefix, tree[i]) != target
    requires Hit(tree[i].children, k, ChildPrefix(k, prefix, tree[i]), target, sub)
    requires forall q :: Hit(tree[i].children, k, ChildPrefix(k, prefix, tree[i]), target, q) ==> !VisitedBefore(q, sub)
    ensures forall q :: Hit(tree, k, prefix, target, q) && q[0] >= i ==> !VisitedBefore(q, [i] + sub)
  {
    Descend(tree, i, k, prefix);
    var p := [i] + sub;
    assert p[1..] == sub;
    forall q | Hit(tree, k, prefix, target, q) && q[0] >= i ensures !VisitedBefore(q, p) {
      if q[0] == i && |q| > 1 {
        assert Hit(tree[i].children, k, ChildPrefix(k, prefix, tree[i]), target, q[1..]);
      }
    }
  }

  /** When neither tree[i] nor anything below it matches, no hit starts at i. */
  lemma NoHitAt(tree: seq<Node>, i: nat, k: Keying, prefix: string, target: string)
    requires i < |tree| && Key(prefix, tree[i]) != target
    requires tree[i].isDir ==>
               forall q :: Hit(tree[i].children, k, ChildPrefix(k, prefix, tree[i]), target, q) ==> q[0] < 0
    ensures forall q :: Hit(tree, k, prefix, target, q) ==> q[0] != i
  {
    Descend(tree, i, k, prefix);
  }

  /** The walk returns true exactly when some node it can reach has a key equal to
      the target, and then it acts on the first such node in depth-first pre-order. */
  lemma FirstMatchMeaning(tree: seq<Node>, k: Keying, prefix: string, target: string)
    ensures FirstMatch(tree, k, prefix, target).Some? <==> exists q :: Hit(tree, k, prefix, target, q)
    ensures FirstMatch(tree, k, prefix, target).Some? ==>
              var p := FirstMatch(tree, k, prefix, target).value;
              Hit(tree, k, prefix, target, p) && forall q :: Hit(tree, k, prefix, target, q) ==> !VisitedBefore(q, p)
  {
    FirstMatchFromMeaning(tree, 0, k, prefix, target);
  }

  /** `updateTree` / `update`: the recursive loop with early return, reporting the
      position of the node it acts on. */
  method FindFirst(tree: seq<Node>, k: Keying, prefix: string, target: string) returns (pos: Option<seq<nat>>)
    ensures pos == FirstMatch(tree, k, prefix, target)
    ensures pos.Some? ==> Hit(tree, k, prefix, target, pos.value)
    ensures pos.None? ==> forall q :: Reachable(tree, q) ==> KeyAt(tree, k, prefix, q) != target
    decreases tree
  {
    FirstMatchMeaning(tree, k, prefix, target);
    var i := 0;
    while i < |tree|
      invariant 0 <= i <= |tree|
      invariant FirstMatchFrom(tree, i, k, prefix, target) == FirstMatch(tree, k, prefix, target)
    {
      var n := tree[i];
      if Key(prefix, n) == target {
        return Some([i]);
      }
      if n.isDir {
        var sub := FindFirst(n.children, k, ChildPrefix(k, prefix, n), target);
        if sub.Some? {
          return Some([i] + sub.value);
        }
      }
      i := i + 1;
    }
    forall q | Reachable(tree, q) ensures KeyAt(tree, k, prefix, q) != target {
      assert !Hit(tree, k, prefix, target, q);
    }
    return None;
  }

  predicate IsPrefix(q: seq<nat>, p: seq<nat>)
  {
    |q| <= |p| && q == p[..|q|]
  }

  /** The tree with the node at p replaced by n (the mutation of the found node). */
  function ReplaceAt(tree: seq<Node>, p: seq<nat>, n: Node): (r: seq<Node>)
    requires Reachable(tree, p)
    ensures |r| == |tree|
    decreases |p|
  {
    var i := p[0];
    if |p| == 1 then tree[i := n]
    else tree[i := tree[i].(children := ReplaceAt(tree[i].children, p[1..], n))]
  }

  /** Same node apart from its children. */
  predicate SameButChildren(a: Node, b: Node)
  {
    a.name == b.name && a.isDir == b.isDir && a.size == b.size && a.expanded == b.expanded
  }

  /** Outside the subtree of p, the replacement neither adds nor removes a position. */
  lemma {:induction false} ReplaceAtReachable(tree: seq<Node>, p: seq<nat>, n: Node, q: seq<nat>)
    requires Reachable(tree, p) && |q| > 0 && !IsPrefix(p, q)
    ensures Reachable(ReplaceAt(tree, p, n), q) <==> Reachable(tree, q)
    decreases |p|
  {
    if |p| > 1 && |q| > 1 && q[0] == p[0] {
      ReplaceAtReachable(tree[p[0]].children, p[1..], n, q[1..]);
    }
  }

  /** Only the matched node changes: it becomes n; every node off its path is as it
      was; its ancestors keep everything but their children lists; and outside its
      subtree no position appears or disappears. */
  lemma {:induction false} ReplaceAtMeaning(tree: seq<Node>, p: seq<nat>, n: Node)
    requires Reachable(tree, p)
    ensures Reachable(ReplaceAt(tree, p, n), p) && NodeAt(ReplaceAt(tree, p, n), p) == n
    ensures forall q :: Reachable(tree, q) && !IsPrefix(q, p) && !IsPrefix(p, q) ==>
              Reachable(ReplaceAt(tree, p, n), q) && NodeAt(ReplaceAt(tree, p, n), q) == NodeAt(tree, q)
    ensures forall q :: Reachable(tree, q) && IsPrefix(q, p) && q != p ==>
              Reachable(ReplaceAt(tree, p, n), q) && SameButChildren(NodeAt(ReplaceAt(tree, p, n), q), NodeAt(tree, q))
    ensures forall q :: |q| > 0 && !IsPrefix(p, q) ==>
              (Reachable(ReplaceAt(tree, p, n), q) <==> Reachable(tree, q))
  {
    ReplaceAtNodes(tree, p, n);
    forall q | |q| > 0 && !IsPrefix(p, q)
      ensures Reachable(ReplaceAt(tree, p, n), q) <==> Reachable(tree, q)
    {
      ReplaceAtReachable(tree, p, n, q);
    }
  }

  /** The node-by-node half of ReplaceAtMeaning, by induction on the position. */
  lemma {:induction false} ReplaceAtNodes(tree: seq<Node>, p: seq<nat>, n: Node)
    requires Reachable(tree, p)
    ensures Reachable(ReplaceAt(tree, p, n), p) && NodeAt(ReplaceAt(tree, p, n), p) == n
    ensures forall q :: Reachable(tree, q) && !IsPrefix(q, p) && !IsPrefix(p, q) ==>
              Reachable(ReplaceAt(tree, p, n), q) && NodeAt(ReplaceAt(tree, p, n), q) == NodeAt(tree, q)
    ensures forall q :: Reachable(tree, q) && IsPrefix(q, p) && q != p ==>
              Reachable(ReplaceAt(tree, p, n), q) && SameButChildren(NodeAt(ReplaceAt(tree, p, n), q), NodeAt(tree, q))
    decreases |p|
  {
    var r := ReplaceAt(tree, p, n);
    var i := p[0];
    if |p| > 1 {
      var c := tree[i].children;
      ReplaceAtNodes(c, p[1..], n);
      assert r[i].children == ReplaceAt(c, p[1..], n);
      forall q | Reachable(tree, q) && !IsPrefix(q, p) && !IsPrefix(p, q)
        ensures Reachable(r, q) && NodeAt(r, q) == NodeAt(tree, q)
      {
        if q[0] == i {
          assert |q| > 1;
          assert !IsPrefix(q[1..], p[1..]) && !IsPrefix(p[1..], q[1..]);
        }
      }
      forall q | Reachable(tree, q) && IsPrefix(q, p) && q != p
        ensures Reachable(r, q) && SameButChildren(NodeAt(r, q), NodeAt(tree, q))
      {
        assert q[0] == i;
        if |q| > 1 {
          assert IsPrefix(q[1..], p[1..]) && q[1..] != p[1..];
        }
      }
    } else {
      forall q | Reachable(tree, q) && !IsPrefix(q, p) && !IsPrefix(p, q)
        ensures Reachable(r, q) && NodeAt(r, q) == NodeAt(tree, q)
      {
        assert q[0] != i;
      }
    }
  }

  /** A name as a directory listing reports it: not empty, no '/'. */
  predicate ValidName(n: string)
  {
    n != [] && '/' !in n
  }

  /** Every name of the list is valid. */
  predicate AllValid(names: seq<string>)
  {
    forall j :: 0 <= j < |names| ==> ValidName(names[j])
  }

  /** The names of the nodes from the top-level list down to the node at p. */
  function NamesAt(tree: seq<Node>, p: seq<nat>): (r: seq<string>)
    requires Reachable(tree, p)
    ensures |r| == |p|
    decreases |p|
  {
    [tree[p[0]].name] + (if |p| == 1 then [] else NamesAt(tree[p[0]].children, p[1..]))
  }

  /** The absolute path of the folder reached from the root "/" through the given
      names: "/", "/a", "/a/b", ... */
  function PathText(names: seq<string>): string
    decreases |names|
  {
    if names == [] then "/"
    else if |names| == 1 then "/" + names[0]
    else PathText(names[..|names| - 1]) + "/" + names[|names| - 1]
  }

  /** "/" followed by a valid name has no "//" and does not end with '/'. */
  lemma SlashName(n: string)
    requires ValidName(n)
    ensures NoDoubleSlash("/" + n) && ("/" + n)[|n|] != '/'
  {
    var s := "/" + n;
    assert s[|n|] == n[|n| - 1];
    forall i | 0 <= i < |s| ensures !DoubleSlashAt(s, i) {
      if i + 1 < |s| {
        assert s[i + 1] == n[i];
      }
    }
  }

  /** An absolute path built from valid names starts with '/', has no "//" and,
      below the root, does not end with '/'. */
  lemma {:induction false} PathTextShape(names: seq<string>)
    requires AllValid(names)
    ensures var t := PathText(names);
      && |t| > 0 && t[0] == '/' && NoDoubleSlash(t)
      && (names != [] ==> t[|t| - 1] != '/')
    decreases |names|
  {
    if |names| == 1 {
      SlashName(names[0]);
    } else if |names| > 1 {
      var init := names[..|names| - 1];
      var last := names[|names| - 1];
      PathTextShape(init);
      SlashName(last);
      NoDoubleSlashConcat(PathText(init), "/" + last);
      assert PathText(names) == PathText(init) + ("/" + last);
    }
  }

  /** Joining a valid name onto an absolute path extends the path by that name. */
  lemma JoinPathText(names: seq<string>, n: string)
    requires AllValid(names) && ValidName(n)
    ensures Join(PathText(names), n) == PathText(names + [n])
  {
    var t := PathText(names);
    assert (names + [n])[..|names|] == names;
    if names == [] {
      JoinRoot(n);
    } else {
      PathTextShape(names);
      JoinPlain(t, n);
      CollapseNone(n);
    }
  }

  lemma AllValidSplit(n: string, rest: seq<string>)
    requires AllValid([n] + rest)
    ensures ValidName(n) && AllValid(rest)
  {
    assert ([n] + rest)[0] == n;
    forall j | 0 <= j < |rest| ensures ValidName(rest[j]) {
      assert ([n] + rest)[j + 1] == rest[j];
    }
  }

  lemma AllValidSnoc(names: seq<string>, n: string)
    requires AllValid(names) && ValidName(n)
    ensures AllValid(names + [n])
  {
  }

  /** The names down to p are valid exactly when the head's name is and the names
      below it are. */
  lemma ValidHead(tree: seq<Node>, p: seq<nat>)
    requires Reachable(tree, p) && AllValid(NamesAt(tree, p))
    ensures ValidName(tree[p[0]].name)
    ensures |p| > 1 ==> AllValid(NamesAt(tree[p[0]].children, p[1..]))
  {
    var n := tree[p[0]];
    var rest := if |p| == 1 then [] else NamesAt(n.children, p[1..]);
    assert NamesAt(tree, p) == [n.name] + rest;
    AllValidSplit(n.name, rest);
  }

  /** The names down to p, appended to a list, in two steps. */
  lemma NamesAppend(tree: seq<Node>, names: seq<string>, p: seq<nat>)
    requires Reachable(tree, p)
    ensures var n := tree[p[0]];
      && (|p| == 1 ==> names + NamesAt(tree, p) == names + [n.name])
      && (|p| > 1 ==> names + NamesAt(tree, p) == (names + [n.name]) + NamesAt(n.children, p[1..]))
  {
    var n := tree[p[0]];
    if |p| > 1 {
      var rest := NamesAt(n.children, p[1..]);
      assert NamesAt(tree, p) == [n.name] + rest;
      assert names + ([n.name] + rest) == (names + [n.name]) + rest;
    }
  }

  /** Keyed through its parent, a node below an absolute path gets the path extended
      by the names down to it. */
  lemma {:induction false} ParentKeyBelow(tree: seq<Node>, names: seq<string>, p: seq<nat>)
    requires Reachable(tree, p)
    requires AllValid(names) && AllValid(NamesAt(tree, p))
    ensures KeyAt(tree, ParentKey, PathText(names), p) == PathText(names + NamesAt(tree, p))
    decreases |p|
  {
    var n := tree[p[0]];
    ValidHead(tree, p);
    JoinPathText(names, n.name);
    NamesAppend(tree, names, p);
    if |p| > 1 {
      AllValidSnoc(names, n.name);
      ParentKeyBelow(n.children, names + [n.name], p[1..]);
    }
  }

  /** Started from the empty prefix on a tree whose top-level node is the root "/",
      the walk keyed through each parent compares every node by its absolute path. */
  lemma ParentKeyIsPath(tree: seq<Node>, p: seq<nat>)
    requires Reachable(tree, p) && tree[p[0]].name == "/"
    requires AllValid(NamesAt(tree, p)[1..])
    ensures KeyAt(tree, ParentKey, "", p) == PathText(NamesAt(tree, p)[1..])
  {
    var root := tree[p[0]];
    assert Key("", root) == "/" by {
      assert "" + "/" + "/" == "//";
    }
    assert PathText([]) == "/";
    if |p| > 1 {
      var rest := NamesAt(root.children, p[1..]);
      assert NamesAt(tree, p)[1..] == rest;
      ParentKeyBelow(root.children, [], p[1..]);
      assert [] + rest == rest;
    }
  }
}
