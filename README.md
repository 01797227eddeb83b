# File browser tree mirror — a Dafny model

This project models the tree-mirror logic of `src/lib/filesystem.js`, the module behind a
web file browser. The browser talks to a virtual filesystem (the global `FS` object). It
keeps four stores for the UI:

- a tree of folder and file nodes (`fileTree`);
- the folder shown in the right-hand pane (`selectedPath`);
- that folder's flat listing (`fileList`);
- a status cell (`fileSystemStatus`).

The model covers:

- `buildNode`, the node record.
- The path join `` `${a}/${b}`.replace('//', '/') ``. Only the first `//` is collapsed, and
  the model keeps that.
- `loadDirectory`:
  - read the directory;
  - skip `.` and `..`;
  - stat each entry and build one node per entry;
  - sort folders first, then by name;
  - optionally hang the result under a parent node.
- The recursive walks `updateTree` (in `expandNode`) and `update` (in `refreshTreeNode`).
  Each acts on the first node, in depth-first pre-order, whose key `${prefix}/${name}`
  equals the target.
- The store transitions of `openRoot`, `expandNode`, `openFolder`, `uploadFiles`,
  `deletePath` and `createFolder`.

Modules:

- `Wrappers`: `Option` and `Result`.
- `Paths`: the join idiom and what it does to slashes.
- `Backend`: a deterministic stand-in for `FS.readdir`, `FS.stat`, `FS.writeFile`,
  `FS.mkdir` and `FS.unlink`.
  - A directory listing map, a stat map and a data map make up the backend.
  - A path missing from a map is a path on which that call fails.
- `Nodes`: the node datatype, `buildNode`, the sort comparator and a verified sort.
- `Loader`: `loadDirectory`. It is an imperative loop (`LoadDirectory`), proved equal to
  the function `Load`. Lemmas then characterise `Load` against a reference definition.
- `Walk`: the recursive search.
  - It is an imperative loop with early return (`FindFirst`), proved equal to the function
    `FirstMatch`.
  - Pre-order lemmas characterise `FirstMatch`.
  - Replacing the found node is shown to change nothing else.
  - The key prefix is a parameter. `Keying.SamePrefix` is the source's behaviour: the same
    prefix at every depth. `Keying.ParentKey` is the corrected walk used under Findings.
- `Browser`: the stores are fields of the class `FileBrowser`, whose methods update them
  step by step. Every value written to the status store is recorded in the ghost field
  `statusLog`, so contracts state the exact status sequence of each operation.
- `Scenarios`: worked examples proved by the verifier.
  - A folders-first sort of a mixed listing.
  - Loading a root that holds one file and one folder.

Asynchrony becomes sequential completion: each awaited or un-awaited call finishes before
the next statement runs.

Facts about the code that the model keeps:

- The join collapses only the first `//`; later runs of slashes stay.
- `expandNode` does nothing to a node that is already expanded.
- A refresh replaces a node's children wholesale.
- `uploadFiles` reopens the folder, and sets IDLE even when that reopen ended in ERROR.
- `deletePath` and `createFolder` write no status of their own.

## Model

| member | source | states |
|---|---|---|
| `Nodes.BuildNode` | src/lib/filesystem.js:14-16 | definition: the node record with the given name, kind, size (default 0) and children (default empty), not expanded |
| `Nodes.BuildNodeShape` | src/lib/filesystem.js:14-16 | a built node is never expanded and keeps name, kind, size and children; size defaults to 0 and children to the empty list |
| `Paths.Join` | src/lib/filesystem.js:30 | definition: `${a}/${b}` with the first `//` collapsed, the key and path text of lines 30, 81, 118, 151 and 161 |
| `Paths.CollapseFirst` | src/lib/filesystem.js:30 | `.replace('//', '/')` removes at most one character |
| `Paths.CollapseNone` | src/lib/filesystem.js:118 | a text without `//` passes through the replace unchanged |
| `Paths.CollapseLeftmost` | src/lib/filesystem.js:161 | only the leftmost `//` loses a slash; any later `//` is kept |
| `Paths.JoinAfterSlash` | src/lib/filesystem.js:81 | joining onto a directory text ending in `/` (without `//`) gives plain concatenation a + b |
| `Paths.JoinRoot` | src/lib/filesystem.js:151 | joining `"/"` and any name n gives `"/" + n` |
| `Paths.JoinPlain` | src/lib/filesystem.js:30 | without a slash at the seam the join is a + "/" + b, with only the first `//` inside b collapsed |
| `Nodes.NameCompare` | src/lib/filesystem.js:46 | definition: an ordinal, character-by-character stand-in for `localeCompare`, returning -1, 0 or 1 |
| `Nodes.NameCompareZero` | src/lib/filesystem.js:46 | the ordinal stand-in for localeCompare returns 0 exactly for equal names |
| `Nodes.NameCompareFlip` | src/lib/filesystem.js:46-47 | swapping the names negates the name comparison |
| `Nodes.NameCompareTrans` | src/lib/filesystem.js:45-46 | the name order is transitive |
| `Nodes.Compare` | src/lib/filesystem.js:43-47 | definition: the sort comparator, folder before file, otherwise by name |
| `Nodes.CompareFlip` | src/lib/filesystem.js:43-47 | the sort comparator is antisymmetric (folder before file, file after folder, names flipped) |
| `Nodes.CompareTrans` | src/lib/filesystem.js:44-47 | the sort comparator is transitive, so the order it defines is consistent |
| `Nodes.CompareZero` | src/lib/filesystem.js:44-46 | the comparator ties exactly nodes of the same kind and name |
| `Nodes.InsertSorted` | src/lib/filesystem.js:43-44 | inserting a node into a sorted list keeps it sorted |
| `Nodes.InsertMultiset` | src/lib/filesystem.js:43 | inserting adds exactly that node |
| `Nodes.SortNodes` | src/lib/filesystem.js:42-47 | `nodes.sort(comparator)` returns a sorted permutation of its input, of the same length |
| `Nodes.SortedFoldersFirst` | src/lib/filesystem.js:42-45 | in a sorted list every folder precedes every file, and nodes of one kind are in non-decreasing name order |
| `Loader.NonDot` | src/lib/filesystem.js:26-28 | definition: the listing with `.` and `..` dropped, order kept |
| `Loader.NonDotMembers` | src/lib/filesystem.js:26-28 | the entries kept are exactly those other than `.` and `..` |
| `Loader.EntryNode` | src/lib/filesystem.js:33-39 | definition: a folder entry becomes `buildNode(entry, true)`, a file entry `buildNode(entry, false, size)` |
| `Loader.Step` | src/lib/filesystem.js:28-38 | definition: one loop iteration; a dot entry is skipped, an entry whose stat throws ends the loop with that error, any other appends its node |
| `Loader.BuildNodes` | src/lib/filesystem.js:26-40 | definition: the push loop over the whole listing, built from `Step` |
| `Loader.EntryNodeShape` | src/lib/filesystem.js:33-39 | a folder entry becomes a collapsed, childless folder node of size 0; a file entry a collapsed file node with its stat size |
| `Loader.BuildNodesPrefix` | src/lib/filesystem.js:26-40 | the push loop after i + 1 entries is one more iteration after i entries |
| `Loader.ExpectedNodes` | src/lib/filesystem.js:24-39 | reference definition: one node per kept entry, in listing order, built from that entry's stat |
| `Loader.BuildNodesFailureSticks` | src/lib/filesystem.js:31 | once a stat has thrown, the later entries do not change the outcome |
| `Loader.BuildNodesMeaning` | src/lib/filesystem.js:24-40 | the loop succeeds exactly when every kept entry can be stat'ed, and then it yields the reference node list |
| `Loader.Load` | src/lib/filesystem.js:21-58 | definition: read the directory, run the push loop, sort the result; a failing readdir or stat is passed on as the error |
| `Loader.Attach` | src/lib/filesystem.js:49-52 | definition: the parent with the loaded list as its children and marked expanded |
| `Loader.LoadMeaning` | src/lib/filesystem.js:21-53 | loadDirectory succeeds exactly when the directory can be read and every kept entry stat'ed; the result then has one node per kept entry, is a permutation of the reference list and is sorted |
| `Loader.LoadDirectory` | src/lib/filesystem.js:21-58 | the loop computes `Load`; with a parent, its children become exactly the result and it is expanded, keeping name, kind and size; on failure the parent is unchanged; without a parent none is produced |
| `Walk.Key` | src/lib/filesystem.js:81 | definition: a node's key, its name joined to the prefix, as on lines 81 and 161 |
| `Walk.KeyAtSamePrefix` | src/lib/filesystem.js:88 | with the same prefix at every depth, a node's key is `${prefix}/${name}` of its own name, whatever its depth |
| `Walk.FirstMatchFrom` | src/lib/filesystem.js:80-90 | a position returned from index i on is a hit at or after i |
| `Walk.FirstMatch` | src/lib/filesystem.js:79-91 | a position returned is a reachable node whose key equals the target |
| `Walk.FirstMatchFromMeaning` | src/lib/filesystem.js:160-168 | from index i on, the position returned is the first hit in pre-order, and None means no hit at or after i |
| `Walk.FirstMatchMeaning` | src/lib/filesystem.js:159-169 | the walk returns true exactly when some reachable node's key equals the target, and it acts on the first such node in depth-first pre-order |
| `Walk.FindFirst` | src/lib/filesystem.js:79-90 | the recursive loop with early return computes `FirstMatch`; None means no reachable node's key equals the target |
| `Walk.ReplaceAt` | src/lib/filesystem.js:50 | replacing the found node keeps the length of the top-level list |
| `Walk.ReplaceAtMeaning` | src/lib/filesystem.js:49-52 | mutating the found node changes only that node; nodes off its path are unchanged, its ancestors keep everything but their children lists, and outside its subtree no position appears or disappears |
| `Walk.ReplaceAtReachable` | src/lib/filesystem.js:49-52 | outside the subtree of the mutated node, a position is reachable after the mutation exactly when it was before |
| `Walk.ParentKeyIsPath` | src/lib/filesystem.js:166 | in the corrected walk, started from "" on a tree rooted at "/", every node is compared by its absolute path |
| `Browser.WriteFiles` | src/lib/filesystem.js:116-120 | the write loop writes at most all the files, and runs to the end exactly when every file was written |
| `Browser.WriteFilesStopsAtFirstFailure` | src/lib/filesystem.js:113-127 | the files before the first failure were written, with no rollback, and the first failing file fails on the backend they leave |
| `Browser.Refreshed` | src/lib/filesystem.js:158-170 | definition: the tree after refreshTreeNode; with no match or a failed load it is unchanged, otherwise the first match gets the loaded children and is expanded |
| `Browser.RefreshedMeaning` | src/lib/filesystem.js:158-170 | a refresh reloads only the first matching node: its children become exactly the loaded list and it is expanded; everything off its path is unchanged and no position outside its subtree appears or disappears; with no match or a failed load the tree is unchanged |
| `Browser.ExpandNodeNeverMatches` | src/lib/filesystem.js:81 | as written, expandNode finds no node for any absolute path |
| `Browser.RefreshOwnPrefixNeverMatches` | src/lib/filesystem.js:154 | as written, refreshing path p with p as the key prefix finds no node and leaves the tree unchanged |
| `Browser.RefreshByPathReloads` | src/lib/filesystem.js:163 | the corrected refresh of a folder's absolute path finds a node with that path, and a successful load becomes its children |
| `Browser.FileBrowser.constructor` | src/lib/filesystem.js:7-9 | the stores start as the empty tree, selected path "/", status IDLE and the empty list |
| `Browser.FileBrowser.SetStatus` | src/lib/filesystem.js:9 | writing the status store records exactly that value |
| `Browser.FileBrowser.OpenRoot` | src/lib/filesystem.js:63-74 | LOADING then IDLE with a fresh, collapsed root holding the loaded nodes and selected path "/"; or LOADING then ERROR with tree and selected path unchanged; the list is never touched |
| `Browser.FileBrowser.ExpandWith` | src/lib/filesystem.js:77-93 | for a given keying: the first matching node, if not expanded, is reloaded with LOADING then IDLE whatever the outcome; otherwise nothing changes |
| `Browser.FileBrowser.ExpandNode` | src/lib/filesystem.js:79-92 | expandNode as written, with the store object's text as prefix; an absolute path leaves tree and status log unchanged |
| `Browser.FileBrowser.ExpandNodeByPath` | src/lib/filesystem.js:84 | expandNode keyed by each node's absolute path |
| `Browser.FileBrowser.OpenFolder` | src/lib/filesystem.js:96-107 | LOADING then IDLE with the loaded nodes as the list and path as selected path; or LOADING then ERROR with both unchanged; the tree is never touched |
| `Browser.FileBrowser.UploadFiles` | src/lib/filesystem.js:113-128 | UPLOADING; on the first failing file ERROR, keeping the files already written; otherwise the folder is reopened and the status ends IDLE; the tree is never touched |
| `Browser.FileBrowser.WriteLoop` | src/lib/filesystem.js:116-119 | the `for` loop leaves the backend and the outcome `WriteFiles` specifies |
| `Browser.FileBrowser.RefreshWith` | src/lib/filesystem.js:158-171 | for a given keying, the tree becomes the `Refreshed` tree; no status is written |
| `Browser.FileBrowser.RefreshTreeNode` | src/lib/filesystem.js:159-170 | refreshTreeNode as written, keyed from the selected path |
| `Browser.FileBrowser.RefreshTreeNodeByPath` | src/lib/filesystem.js:162 | refreshTreeNode keyed by each node's absolute path |
| `Browser.FileBrowser.DeletePath` | src/lib/filesystem.js:143-147 | a failed unlink is thrown and changes nothing; otherwise the selected folder is reopened and refreshed, and with non-empty names the tree stays as it was |
| `Browser.FileBrowser.CreateFolder` | src/lib/filesystem.js:150-155 | a failed mkdir is thrown and changes nothing; otherwise parent is opened and refreshed, and after a successful reopen the tree stays as it was |
| `Scenarios.SortExample` | src/lib/filesystem.js:43-46 | folder b, file a, folder a sort as folder a, folder b, file a |
| `Scenarios.LoadRootExample` | src/lib/filesystem.js:23-53 | a root listing `.`, `..`, file b.txt (10 bytes) and folder a loads as [a (folder), b.txt (file, 10)] |

## Left out

- Svelte stores and subscriptions. The stores are plain fields, and no subscriber is notified.
- `selectedPath.get()` (lines 145, 146 and 161) is read as the store's current value. Svelte's
  `writable` has no `get` method, so in the real program these calls throw a TypeError; the
  model does not capture that.
- Promise scheduling. Every call completes before the next statement, including the
  un-awaited `loadDirectory(...).finally(...)` at line 84, `loadDirectory(path, n)` at line
  163, `FS.writeFile` at line 119 and `FS.mkdir` at line 152. Interleavings of overlapping
  operations are not modelled.
- A `loadDirectory` that fails inside `expandNode` or `refreshTreeNode` is an unhandled
  rejection. The model leaves the tree unchanged and does not represent the rejection.
- The filesystem itself. `FS` is a deterministic map-based stand-in; its error kinds and its
  unlink/mkdir semantics are assumptions, not the real WebVM behaviour.
- `downloadFile`. It is Blob, object-URL and DOM anchor plumbing.
- `console.error` logging.
- File bytes are an opaque sequence. What `file.arrayBuffer()` yields is an input, and its
  rejection is `None`.
- Nodes.NameCompare is ordinal, lexicographic by code point, rather than the
  locale-specific collation of `localeCompare`.
- Nodes.SortNodes is a verified insertion sort on values. The in-place, engine-specific
  algorithm of `Array.prototype.sort` is not modelled. Only the result is: sorted under
  the comparator and a permutation of the input.
- Node identity and aliasing. Nodes are values, and "mutating the found node" is
  replacing it at its position. No node object is shared between two places in the source,
  so nothing observable is lost.
- Walk.ReplaceAt: its own contract states only the length. What it does to each node is
  stated by `Walk.ReplaceAtMeaning`.
- Browser.WriteFiles: its own contract states only the count and the outcome. The stop
  at the first failure is stated by `Browser.WriteFilesStopsAtFirstFailure`.

## Findings

| source | as written | input that shows it | evidently intended | confidence | as-written member | corrected member |
|---|---|---|---|---|---|---|
| src/lib/filesystem.js:81 | the key is `${selectedPath}/${n.name}`, so the store object is interpolated and every key begins with "[object Object]" | `expandNode("/a")` on a tree whose root holds folder `a`: no key starts with '/', so nothing is loaded or expanded | compare each node through its absolute path, so that the folder at `/a` is found and loaded | high; not executed | `Browser.ExpandNodeNeverMatches` | `Browser.FileBrowser.ExpandNodeByPath` |
| src/lib/filesystem.js:161-166 | every node's key is the selected path joined with its own name, at every depth, and `createFolder` and `deletePath` pass that same path as the target | `createFolder("/", "docs")` after `openRoot()`: the selected path is "/", the root's key is "//" and every other key is longer than "/", so the tree never shows `docs` | key each node under its parent's key, starting from "" at the root, and reload the node whose absolute path is the target (`Browser.RefreshByPathReloads`) | high; not executed | `Browser.RefreshOwnPrefixNeverMatches` | `Browser.FileBrowser.RefreshTreeNodeByPath` |
