/** loadDirectory (src/lib/filesystem.js:21-58): list a directory, turn every entry
    other than "." and ".." into a node, sort folders first, and optionally hang the
    result under a parent node. */
module Loader {
  import opened Wrappers
  import opened Paths
  import opened Backend
  import opened Nodes

  predicate IsDot(e: string)
  {
    e == "." || e == ".."
  }

  /** The entries loadDirectory keeps, in listing order. */
  function NonDot(entries: seq<string>): seq<string>
    decreases |entries|
  {
    if entries == [] then []
    else
      var init := NonDot(entries[..|entries| - 1]);
      var e := entries[|entries| - 1];
      if IsDot(e) then init else init + [e]
  }

  /** Exactly the entries other than "." and ".." are kept. */
  lemma {:induction false} NonDotMembers(entries: seq<string>)
    ensures forall e :: e in NonDot(entries) <==> e in entries && !IsDot(e)
    decreases |entries|
  {
    if entries != [] {
      var init := entries[..|entries| - 1];
      NonDotMembers(init);
      assert entries == init + [entries[|entries| - 1]];
    }
  }

  /** The node one listed entry becomes, given what stat reports for it. */
  function EntryNode(entry: string, st: Stat): Node
  {
    if st.isDirectory then BuildNode(entry, true) else BuildNode(entry, false, st.size)
  }

  /** A folder entry becomes a collapsed, childless folder node of size 0; a file
      entry a collapsed file node with the size stat reports. */
  lemma EntryNodeShape(entry: string, st: Stat)
    ensures var n := EntryNode(entry, st);
      && n.name == entry && n.isDir == st.isDirectory && n.children == [] && !n.expanded
      && n.size == (if st.isDirectory then 0 else st.size)
  {
  }

  /** One iteration of the `for` loop of loadDirectory: skip a dot entry, otherwise
      stat the joined path and push the entry's node; a failed stat throws. */
  function Step(acc: Result<seq<Node>, FsError>, fs: Fs, path: string, e: string): Result<seq<Node>, FsError>
  {
    if acc.Err? || IsDot(e) then acc
    else match StatOf(fs, Join(path, e))
      case Err(err) => Err(err)
      case Ok(st) => Ok(acc.value + [EntryNode(e, st)])
  }

  /** The whole loop over the listed entries: the nodes pushed, in listing order, or
      the error of the first stat that fails. */
  function BuildNodes(fs: Fs, path: string, entries: seq<string>): Result<seq<Node>, FsError>
    decreases |entries|
  {
    if entries == [] then Ok([])
    else Step(BuildNodes(fs, path, entries[..|entries| - 1]), fs, path, entries[|entries| - 1])
  }

  /** The loop after i + 1 iterations is one more step after i iterations. */
  lemma BuildNodesPrefix(fs: Fs, path: string, entries: seq<string>, i: nat)
    requires i < |entries|
    ensures BuildNodes(fs, path, entries[..i + 1]) == Step(BuildNodes(fs, path, entries[..i]), fs, path, entries[i])
  {
    assert entries[..i + 1][..i] == entries[..i];
  }

  /** Every kept entry can be stat'ed. */
  predicate AllStatable(fs: Fs, path: string, names: seq<string>)
  {
    forall e :: e in names ==> Join(path, e) in fs.stat
  }

  /** Reference definition: one node per kept name, in order. */
  function ExpectedNodes(fs: Fs, path: string, names: seq<string>): (r: seq<Node>)
    requires AllStatable(fs, path, names)
    ensures |r| == |names|
    ensures forall k :: 0 <= k < |names| ==> r[k] == EntryNode(names[k], fs.stat[Join(path, names[k])])
  {
    if names == [] then []
    else
      assert names[0] in names;
      [EntryNode(names[0], fs.stat[Join(path, names[0])])] + ExpectedNodes(fs, path, names[1..])
  }

  /** Once a stat has failed, later entries no longer matter: the loop has thrown. */
  lemma {:induction false} BuildNodesFailureSticks(fs: Fs, path: string, entries: seq<string>, k: nat)
    requires k <= |entries|
    requires BuildNodes(fs, path, entries[..k]).Err?
    ensures BuildNodes(fs, path, entries) == BuildNodes(fs, path, entries[..k])
    decreases |entries|
  {
    if k < |entries| {
      var init := entries[..|entries| - 1];
      assert init[..k] == entries[..k];
      BuildNodesFailureSticks(fs, path, init, k);
    } else {
      assert entries[..k] == entries;
    }
  }

  /** The loop succeeds exactly when every kept entry can be stat'ed, and then it
      pushes one node per kept entry, in listing order. */
  lemma {:induction false} BuildNodesMeaning(fs: Fs, path: string, entries: seq<string>)
    ensures BuildNodes(fs, path, entries).Ok? <==> AllStatable(fs, path, NonDot(entries))
    ensures BuildNodes(fs, path, entries).Ok? ==>
              BuildNodes(fs, path, entries).value == ExpectedNodes(fs, path, NonDot(entries))
    decreases |entries|
  {
    if entries != [] {
      var init := entries[..|entries| - 1];
      var e := entries[|entries| - 1];
      BuildNodesMeaning(fs, path, init);
      var names := NonDot(init);
      if !IsDot(e) {
        assert NonDot(entries) == names + [e];
        if AllStatable(fs, path, names + [e]) {
          assert AllStatable(fs, path, names) by {
            forall x | x in names ensures Join(path, x) in fs.stat { assert x in names + [e]; }
          }
          assert e in names + [e];
          var ex := ExpectedNodes(fs, path, names);
          var ex' := ExpectedNodes(fs, path, names + [e]);
          assert ex' == ex + [EntryNode(e, fs.stat[Join(path, e)])];
        } else if BuildNodes(fs, path, init).Ok? {
          var x :| x in names + [e] && Join(path, x) !in fs.stat;
          assert x == e;
        }
      }
    }
  }

  /** What loadDirectory(path) resolves to: the sorted nodes, or the error thrown by
      readdir or by the first failing stat. */
  function Load(fs: Fs, path: string): Result<seq<Node>, FsError>
  {
    match ReadDir(fs, path)
    case Err(e) => Err(e)
    case Ok(entries) =>
      match BuildNodes(fs, path, entries)
      case Err(e) => Err(e)
      case Ok(nodes) => Ok(SortNodes(nodes))
  }

  /** loadDirectory succeeds exactly when the directory can be read and each entry
      other than "." and ".." can be stat'ed; its result then holds exactly one node
      per such entry (a permutation of the nodes built from them) and is sorted
      folders first, then by name. */
  lemma LoadMeaning(fs: Fs, path: string)
    ensures Load(fs, path).Ok? <==>
              path in fs.listing && AllStatable(fs, path, NonDot(fs.listing[path]))
    ensures Load(fs, path).Ok? ==>
              var names := NonDot(fs.listing[path]);
              var r := Load(fs, path).value;
              && |r| == |names|
              && Sorted(r)
              && multiset(r) == multiset(ExpectedNodes(fs, path, names))
  {
    if path in fs.listing {
      BuildNodesMeaning(fs, path, fs.listing[path]);
    }
  }

  /** parentNode.children = nodes; parentNode.expanded = true */
  function Attach(parent: Node, nodes: seq<Node>): Node
  {
    parent.(children := nodes, expanded := true)
  }

  /** loadDirectory(path, parentNode): the nodes it resolves to and the parent after
      the call (None stands for the omitted parent). */
  method LoadDirectory(fs: Fs, path: string, parent: Option<Node>)
    returns (r: Result<seq<Node>, FsError>, parent': Option<Node>)
    ensures r == Load(fs, path)
    ensures parent'.Some? <==> parent.Some?
    ensures r.Err? ==> parent' == parent
    ensures r.Ok? && parent.Some? ==>
              && parent'.value.children == r.value && parent'.value.expanded
              && parent'.value.name == parent.value.name
              && parent'.value.isDir == parent.value.isDir
              && parent'.value.size == parent.value.size
  {
    parent' := parent;
    var listed := ReadDir(fs, path);
    if listed.Err? {
      r := Err(listed.error);
      return;
    }
    var entries := listed.value;
    var nodes: seq<Node> := [];
    var i := 0;
    while i < |entries|
      invariant 0 <= i <= |entries|
      invariant BuildNodes(fs, path, entries[..i]) == Ok(nodes)
    {
      var entry := entries[i];
      BuildNodesPrefix(fs, path, entries, i);
      if entry == "." || entry == ".." {
        i := i + 1;
        continue;
      }
      var full := Join(path, entry);
      var st := StatOf(fs, full);
      if st.Err? {
        BuildNodesFailureSticks(fs, path, entries, i + 1);
        r := Err(st.error);
        return;
      }
      if st.value.isDirectory {
        nodes := nodes + [BuildNode(entry, true)];
      } else {
        nodes := nodes + [BuildNode(entry, false, st.value.size)];
      }
      i := i + 1;
    }
    assert entries[..|entries|] == entries;
    nodes := SortNodes(nodes);
    r := Ok(nodes);
    if parent.Some? {
      parent' := Some(Attach(parent.value, nodes));
    }
  }
}
