/** The public API of src/lib/filesystem.js: the shared stores (fileTree,
    selectedPath, fileSystemStatus, fileList) as the fields of one object, the
    backend it mutates, and the operations that update them step by step. */
module Browser {
  import opened Wrappers
  import opened Paths
  import opened Backend
  import opened Nodes
  import opened Loader
  import opened Walk

  /** fileSystemStatus: 'IDLE' | 'LOADING' | 'UPLOADING' | 'ERROR' */
  datatype Status = Idle | Loading | Uploading | Error

  predicate Busy(s: Status)
  {
    s == Loading || s == Uploading
  }

  /** What `${selectedPath}` evaluates to: the store object, not its value, turned
      into text by the template string. */
  const StoreObjectText: string := "[object Object]"

  /** A file handed to uploadFiles: its name, and what file.arrayBuffer() resolves
      to (None when that promise rejects). */
  datatype UploadFile = UploadFile(name: string, bytes: Option<seq<Byte>>)

  /** The state after the write loop of uploadFiles: the backend, how many files
      were written, and whether the loop ran to the end. */
  datatype Upload = Upload(fs: Fs, written: nat, ok: bool)

  /** The write loop of uploadFiles, file by file until the first failure. */
  function WriteFiles(fs: Fs, dir: string, files: seq<UploadFile>): (u: Upload)
    ensures u.written <= |files|
    ensures u.ok <==> u.written == |files|
    decreases |files|
  {
    if files == [] then Upload(fs, 0, true)
    else if files[0].bytes.None? then Upload(fs, 0, false)
    else
      match WriteFile(fs, Join(dir, files[0].name), files[0].bytes.value)
      case Err(_) => Upload(fs, 0, false)
      case Ok(fs1) =>
        var u := WriteFiles(fs1, dir, files[1..]);
        u.(written := u.written + 1)
  }

  /** The loop stops at the first failing file: every file before it was written
      (the backend they leave is the one returned, there is no rollback), and that
      file, tried on that backend, fails. */
  lemma {:induction false} WriteFilesStopsAtFirstFailure(fs: Fs, dir: string, files: seq<UploadFile>)
    ensures var u := WriteFiles(fs, dir, files);
      && WriteFiles(fs, dir, files[..u.written]) == Upload(u.fs, u.written, true)
      && (!u.ok ==> WriteFiles(u.fs, dir, files[u.written..]).written == 0)
    decreases |files|
  {
    var u := WriteFiles(fs, dir, files);
    if files != [] && files[0].bytes.Some? {
      var w := WriteFile(fs, Join(dir, files[0].name), files[0].bytes.value);
      if w.Ok? {
        WriteFilesStopsAtFirstFailure(w.value, dir, files[1..]);
        var v := WriteFiles(w.value, dir, files[1..]);
        assert files[..u.written][1..] == files[1..][..v.written];
        assert files[u.written..] == files[1..][v.written..];
      }
    }
  }

  /** The effect of refreshTreeNode(target) on the tree when the walk keys nodes
      with keying k from prefix: the first matching node gets the freshly loaded
      children and is marked expanded; if nothing matches or the load fails, the tree
      is as before. */
  function Refreshed(tree: seq<Node>, k: Keying, prefix: string, target: string, fs: Fs): seq<Node>
  {
    match FirstMatch(tree, k, prefix, target)
    case None => tree
    case Some(p) =>
      match Load(fs, target)
      case Err(_) => tree
      case Ok(nodes) => ReplaceAt(tree, p, Attach(NodeAt(tree, p), nodes))
  }

  /** A refresh acts on the first match only: that node keeps its name, kind and
      size, its children become exactly the loaded list and it is expanded; every
      node off its path is unchanged; without a match or a successful load the tree
      is unchanged. */
  lemma RefreshedMeaning(tree: seq<Node>, k: Keying, prefix: string, target: string, fs: Fs)
    ensures FirstMatch(tree, k, prefix, target).None? || Load(fs, target).Err? ==>
              Refreshed(tree, k, prefix, target, fs) == tree
    ensures FirstMatch(tree, k, prefix, target).Some? && Load(fs, target).Ok? ==>
              var p := FirstMatch(tree, k, prefix, target).value;
              var r := Refreshed(tree, k, prefix, target, fs);
              && Reachable(r, p)
              && SameButChildren(NodeAt(r, p), NodeAt(tree, p).(expanded := true))
              && NodeAt(r, p).children == Load(fs, target).value
              && (forall q :: Reachable(tree, q) && !IsPrefix(q, p) && !IsPrefix(p, q) ==>
                    Reachable(r, q) && NodeAt(r, q) == NodeAt(tree, q))
              && (forall q :: |q| > 0 && !IsPrefix(p, q) ==> (Reachable(r, q) <==> Reachable(tree, q)))
  {
    var m := FirstMatch(tree, k, prefix, target);
    if m.Some? && Load(fs, target).Ok? {
      ReplaceAtMeaning(tree, m.value, Attach(NodeAt(tree, m.value), Load(fs, target).value));
    }
  }

  /** Every node the walk can reach has a non-empty name. */
  ghost predicate NamedTree(tree: seq<Node>)
  {
    forall q :: Reachable(tree, q) ==> NodeAt(tree, q).name != ""
  }

  /** As written, expandNode never finds a node for an absolute path: every key
      starts with the '[' of "[object Object]". */
  lemma ExpandNodeNeverMatches(tree: seq<Node>, nodePath: string)
    requires |nodePath| > 0 && nodePath[0] == '/'
    ensures FirstMatch(tree, SamePrefix, StoreObjectText, nodePath).None?
  {
    forall q | Reachable(tree, q) ensures KeyAt(tree, SamePrefix, StoreObjectText, q) != nodePath {
      KeyAtSamePrefix(tree, StoreObjectText, q);
      JoinFirst(StoreObjectText, NodeAt(tree, q).name);
    }
    FirstMatchMeaning(tree, SamePrefix, StoreObjectText, nodePath);
  }

  /** As written, refreshing the selected path with the selected path as prefix
      never finds a node: `${p}/${name}` is longer than p for any non-empty name, so
      the tree stays as it was. */
  lemma RefreshOwnPrefixNeverMatches(tree: seq<Node>, p: string, fs: Fs)
    requires NamedTree(tree)
    ensures FirstMatch(tree, SamePrefix, p, p).None?
    ensures Refreshed(tree, SamePrefix, p, p, fs) == tree
  {
    forall q | Reachable(tree, q) ensures KeyAt(tree, SamePrefix, p, q) != p {
      KeyAtSamePrefix(tree, p, q);
      assert |p + "/" + NodeAt(tree, q).name| > |p| + 1;
    }
    FirstMatchMeaning(tree, SamePrefix, p, p);
  }

  /** Keyed through each parent from the empty prefix, a refresh of the absolute path
      of a folder in a tree rooted at "/" finds a node with that path, and a
      successful load becomes that node's children. */
  lemma RefreshByPathReloads(tree: seq<Node>, p: seq<nat>, target: string, fs: Fs)
    requires Reachable(tree, p) && tree[p[0]].name == "/" && AllValid(NamesAt(tree, p)[1..])
    requires PathText(NamesAt(tree, p)[1..]) == target
    ensures FirstMatch(tree, ParentKey, "", target).Some?
    ensures Load(fs, target).Ok? ==>
              var m := FirstMatch(tree, ParentKey, "", target).value;
              var r := Refreshed(tree, ParentKey, "", target, fs);
              && KeyAt(tree, ParentKey, "", m) == target
              && Reachable(r, m) && NodeAt(r, m).expanded
              && NodeAt(r, m).children == Load(fs, target).value
  {
    ParentKeyIsPath(tree, p);
    assert Hit(tree, ParentKey, "", target, p);
    FirstMatchMeaning(tree, ParentKey, "", target);
    RefreshedMeaning(tree, ParentKey, "", target, fs);
  }

  /** The stores and the backend they mirror. */
  class FileBrowser {
    var fileTree: seq<Node>
    var selectedPath: string
    var status: Status
    var fileList: seq<Node>
    var fs: Fs
    /** Every value written to fileSystemStatus, in order. */
    ghost var statusLog: seq<Status>

    /** The status store holds the last value written to it. */
    ghost predicate Valid()
      reads this
    {
      statusLog != [] ==> status == statusLog[|statusLog| - 1]
    }

    /** The initial values of the stores: writable([]), writable('/'),
        writable('IDLE'), writable([]). */
    constructor (backend: Fs)
      ensures Valid()
      ensures fileTree == [] && selectedPath == "/" && status == Idle && fileList == []
      ensures fs == backend && statusLog == []
    {
      fileTree := [];
      selectedPath := "/";
      status := Idle;
      fileList := [];
      fs := backend;
      statusLog := [];
    }

    /** fileSystemStatus.set(s) */
    method SetStatus(s: Status)
      requires Valid()
      modifies this`status, this`statusLog
      ensures Valid()
      ensures status == s && statusLog == old(statusLog) + [s]
    {
      status := s;
      statusLog := statusLog + [s];
    }

    /** openRoot(): LOADING, then a fresh root (not expanded) holding the loaded
        children of "/" and selected path "/", then IDLE; ERROR on failure, with the
        tree and the selected path left as they were. */
    method OpenRoot()
      requires Valid()
      modifies this
      ensures Valid() && !Busy(status)
      ensures fs == old(fs) && fileList == old(fileList)
      ensures Load(old(fs), "/").Ok? ==>
                && fileTree == [BuildNode("/", true, 0, Load(old(fs), "/").value)]
                && selectedPath == "/"
                && statusLog == old(statusLog) + [Loading] + [Idle]
      ensures Load(old(fs), "/").Err? ==>
                && fileTree == old(fileTree) && selectedPath == old(selectedPath)
                && statusLog == old(statusLog) + [Loading] + [Error]
    {
      SetStatus(Loading);
      var rootNode := BuildNode("/", true);
      var r, _ := LoadDirectory(fs, "/", None);
      if r.Err? {
        SetStatus(Error);
        return;
      }
      rootNode := rootNode.(children := r.value);
      fileTree := [rootNode];
      selectedPath := "/";
      SetStatus(Idle);
    }

    /** The body of expandNode for a walk keyed with k from prefix: the first node
        whose key equals nodePath is loaded and expanded, unless it already is
        expanded; loading sets LOADING and ends in IDLE whatever its outcome. */
    method ExpandWith(k: Keying, prefix: string, nodePath: string)
      requires Valid()
      modifies this
      ensures Valid()
      ensures fs == old(fs) && fileList == old(fileList) && selectedPath == old(selectedPath)
      ensures var pos := FirstMatch(old(fileTree), k, prefix, nodePath);
        if pos.Some? && !NodeAt(old(fileTree), pos.value).expanded then
          && fileTree == Refreshed(old(fileTree), k, prefix, nodePath, old(fs))
          && statusLog == old(statusLog) + [Loading] + [Idle]
        else
          fileTree == old(fileTree) && status == old(status) && statusLog == old(statusLog)
    {
      var pos := FindFirst(fileTree, k, prefix, nodePath);
      if pos.Some? {
        var n := NodeAt(fileTree, pos.value);
        if !n.expanded {
          SetStatus(Loading);
          var r, n' := LoadDirectory(fs, nodePath, Some(n));
          if r.Ok? {
            fileTree := ReplaceAt(fileTree, pos.value, n'.value);
          }
          SetStatus(Idle);
        }
      }
    }

    /** expandNode(nodePath) as written: the key is built from the text of the
        store object, so an absolute nodePath changes nothing at all. */
    method ExpandNode(nodePath: string)
      requires Valid()
      modifies this
      ensures Valid()
      ensures fs == old(fs) && fileList == old(fileList) && selectedPath == old(selectedPath)
      ensures var pos := FirstMatch(old(fileTree), SamePrefix, StoreObjectText, nodePath);
        if pos.Some? && !NodeAt(old(fileTree), pos.value).expanded then
          && fileTree == Refreshed(old(fileTree), SamePrefix, StoreObjectText, nodePath, old(fs))
          && statusLog == old(statusLog) + [Loading] + [Idle]
        else
          fileTree == old(fileTree) && status == old(status) && statusLog == old(statusLog)
      ensures |nodePath| > 0 && nodePath[0] == '/' ==>
                fileTree == old(fileTree) && statusLog == old(statusLog)
    {
      if |nodePath| > 0 && nodePath[0] == '/' {
        ExpandNodeNeverMatches(fileTree, nodePath);
      }
      ExpandWith(SamePrefix, StoreObjectText, nodePath);
    }

    /** expandNode(nodePath) as evidently intended: every node is compared through
        its own absolute path. */
    method ExpandNodeByPath(nodePath: string)
      requires Valid()
      modifies this
      ensures Valid()
      ensures fs == old(fs) && fileList == old(fileList) && selectedPath == old(selectedPath)
      ensures var pos := FirstMatch(old(fileTree), ParentKey, "", nodePath);
        if pos.Some? && !NodeAt(old(fileTree), pos.value).expanded then
          && fileTree == Refreshed(old(fileTree), ParentKey, "", nodePath, old(fs))
          && statusLog == old(statusLog) + [Loading] + [Idle]
        else
          fileTree == old(fileTree) && status == old(status) && statusLog == old(statusLog)
    {
      ExpandWith(ParentKey, "", nodePath);
    }

    /** openFolder(path): LOADING, then the loaded nodes as the flat list and path
        as the selected path, then IDLE; ERROR on failure, with the list and the
        selected path left as they were. */
    method OpenFolder(path: string)
      requires Valid()
      modifies this
      ensures Valid() && !Busy(status)
      ensures fs == old(fs) && fileTree == old(fileTree)
      ensures Load(old(fs), path).Ok? ==>
                && fileList == Load(old(fs), path).value && selectedPath == path
                && statusLog == old(statusLog) + [Loading] + [Idle]
      ensures Load(old(fs), path).Err? ==>
                && fileList == old(fileList) && selectedPath == old(selectedPath)
                && statusLog == old(statusLog) + [Loading] + [Error]
    {
      SetStatus(Loading);
      var r, _ := LoadDirectory(fs, path, None);
      if r.Err? {
        SetStatus(Error);
        return;
      }
      fileList := r.value;
      selectedPath := path;
      SetStatus(Idle);
    }

    /** uploadFiles(path, files): UPLOADING, then each file written under path until
        the first failure. A failure ends in ERROR with the files written so far kept;
        otherwise the folder is reopened and the status ends IDLE, even when reopening
        the folder failed. */
    method UploadFiles(path: string, files: seq<UploadFile>)
      requires Valid()
      modifies this
      ensures Valid() && !Busy(status)
      ensures fileTree == old(fileTree)
      ensures fs == WriteFiles(old(fs), path, files).fs
      ensures !WriteFiles(old(fs), path, files).ok ==>
                && status == Error && statusLog == old(statusLog) + [Uploading] + [Error]
                && fileList == old(fileList) && selectedPath == old(selectedPath)
      ensures WriteFiles(old(fs), path, files).ok ==>
                var loaded := Load(fs, path);
                && status == Idle
                && statusLog == old(statusLog) + [Uploading] + [Loading] + [if loaded.Ok? then Idle else Error] + [Idle]
                && fileList == (if loaded.Ok? then loaded.value else old(fileList))
                && selectedPath == (if loaded.Ok? then path else old(selectedPath))
    {
      SetStatus(Uploading);
      var ok := WriteLoop(path, files);
      if !ok {
        SetStatus(Error);
        return;
      }
      OpenFolder(path);
      SetStatus(Idle);
    }

    /** The `for (const file of files)` loop of uploadFiles: read each file's bytes
        and write them to `${path}/${file.name}`; the first failure leaves the loop
        (the catch of uploadFiles takes over). */
    method WriteLoop(path: string, files: seq<UploadFile>) returns (ok: bool)
      modifies this`fs
      ensures fs == WriteFiles(old(fs), path, files).fs
      ensures ok == WriteFiles(old(fs), path, files).ok
    {
      ghost var total := WriteFiles(fs, path, files);
      var i := 0;
      while i < |files|
        invariant 0 <= i <= |files|
        invariant WriteFiles(fs, path, files[i..]).fs == total.fs
        invariant WriteFiles(fs, path, files[i..]).ok == total.ok
      {
        var file := files[i];
        assert files[i..][0] == file && files[i..][1..] == files[i + 1..];
        if file.bytes.None? {
          return false;
        }
        var fullPath := Join(path, file.name);
        var w := WriteFile(fs, fullPath, file.bytes.value);
        if w.Err? {
          return false;
        }
        fs := w.value;
        i := i + 1;
      }
      return true;
    }

    /** The body of refreshTreeNode for a walk keyed with k from prefix: reloads the
        first node whose key equals path. A failed load is an unhandled rejection:
        nothing changes. The status store is not touched. */
    method RefreshWith(k: Keying, prefix: string, path: string)
      modifies this`fileTree
      ensures fileTree == Refreshed(old(fileTree), k, prefix, path, fs)
    {
      var pos := FindFirst(fileTree, k, prefix, path);
      if pos.Some? {
        var r, n' := LoadDirectory(fs, path, Some(NodeAt(fileTree, pos.value)));
        if r.Ok? {
          fileTree := ReplaceAt(fileTree, pos.value, n'.value);
        }
      }
    }

    /** refreshTreeNode(path) as written: the key of every node is built from the
        selected path. */
    method RefreshTreeNode(path: string)
      modifies this`fileTree
      ensures fileTree == Refreshed(old(fileTree), SamePrefix, selectedPath, path, fs)
    {
      RefreshWith(SamePrefix, selectedPath, path);
    }

    /** refreshTreeNode(path) as evidently intended: the node reloaded is the one
        whose absolute path is path. */
    method RefreshTreeNodeByPath(path: string)
      modifies this`fileTree
      ensures fileTree == Refreshed(old(fileTree), ParentKey, "", path, fs)
    {
      RefreshWith(ParentKey, "", path);
    }

    /** deletePath(path): unlink; a failure is thrown and nothing changes. Otherwise
        the selected folder is reopened and refreshTreeNode is called on the selected
        path. */
    method DeletePath(path: string) returns (thrown: Option<FsError>)
      requires Valid()
      modifies this
      ensures Valid()
      ensures Unlink(old(fs), path).Err? ==>
                && thrown == Some(Unlink(old(fs), path).error)
                && fs == old(fs) && fileTree == old(fileTree) && fileList == old(fileList)
                && selectedPath == old(selectedPath) && status == old(status) && statusLog == old(statusLog)
      ensures Unlink(old(fs), path).Ok? ==>
                var fs' := Unlink(old(fs), path).value;
                var loaded := Load(fs', old(selectedPath));
                && thrown.None? && fs == fs' && !Busy(status)
                && selectedPath == old(selectedPath)
                && fileList == (if loaded.Ok? then loaded.value else old(fileList))
                && statusLog == old(statusLog) + [Loading] + [if loaded.Ok? then Idle else Error]
                && fileTree == Refreshed(old(fileTree), SamePrefix, old(selectedPath), old(selectedPath), fs')
                && (NamedTree(old(fileTree)) ==> fileTree == old(fileTree))
    {
      var u := Unlink(fs, path);
      if u.Err? {
        return Some(u.error);
      }
      fs := u.value;
      if NamedTree(fileTree) {
        RefreshOwnPrefixNeverMatches(fileTree, selectedPath, fs);
      }
      OpenFolder(selectedPath);
      RefreshTreeNode(selectedPath);
      return None;
    }

    /** createFolder(parent, name): mkdir at the joined path; a failure is thrown and
        nothing changes. Otherwise parent is opened and refreshTreeNode is called on
        parent, with the selected path as it is after opening. */
    method CreateFolder(parent: string, name: string) returns (thrown: Option<FsError>)
      requires Valid()
      modifies this
      ensures Valid()
      ensures Mkdir(old(fs), Join(parent, name)).Err? ==>
                && thrown == Some(Mkdir(old(fs), Join(parent, name)).error)
                && fs == old(fs) && fileTree == old(fileTree) && fileList == old(fileList)
                && selectedPath == old(selectedPath) && status == old(status) && statusLog == old(statusLog)
      ensures Mkdir(old(fs), Join(parent, name)).Ok? ==>
                var fs' := Mkdir(old(fs), Join(parent, name)).value;
                var loaded := Load(fs', parent);
                && thrown.None? && fs == fs' && !Busy(status)
                && selectedPath == (if loaded.Ok? then parent else old(selectedPath))
                && fileList == (if loaded.Ok? then loaded.value else old(fileList))
                && statusLog == old(statusLog) + [Loading] + [if loaded.Ok? then Idle else Error]
                && fileTree == Refreshed(old(fileTree), SamePrefix, selectedPath, parent, fs')
                && (NamedTree(old(fileTree)) && loaded.Ok? ==> fileTree == old(fileTree))
    {
      var p := Join(parent, name);
      var m := Mkdir(fs, p);
      if m.Err? {
        return Some(m.error);
      }
      fs := m.value;
      if NamedTree(fileTree) {
        RefreshOwnPrefixNeverMatches(fileTree, parent, fs);
      }
      OpenFolder(parent);
      RefreshTreeNode(parent);
      return None;
    }
  }
}
