/** Tree nodes (buildNode) and the folders-first order loadDirectory sorts them by. */
module Nodes {

  /** One file or folder of the tree mirror: { name, isDir, size, children, expanded }. */
  datatype Node = Node(name: string, isDir: bool, size: nat, children: seq<Node>, expanded: bool)

  /** buildNode(name, isDir, size = 0, children = []) */
  function BuildNode(name: string, isDir: bool, size: nat := 0, children: seq<Node> := []): Node
  {
    Node(name, isDir, size, children, false)
  }

  /** A built node is never expanded and keeps what it was given; size and
      children default to 0 and the empty list. */
  lemma BuildNodeShape(name: string, isDir: bool, size: nat, children: seq<Node>)
    ensures var n := BuildNode(name, isDir, size, children);
      !n.expanded && n.name == name && n.isDir == isDir && n.size == size && n.children == children
    ensures var d := BuildNode(name, isDir);
      !d.expanded && d.size == 0 && d.children == []
  {
  }

  /** Ordinal stand-in for String.prototype.localeCompare: -1, 0 or 1 by
      lexicographic order of the characters' code points. */
  function NameCompare(a: string, b: string): (c: int)
    ensures -1 <= c <= 1
  {
    if a == [] && b == [] then 0
    else if a == [] then -1
    else if b == [] then 1
    else if a[0] < b[0] then -1
    else if b[0] < a[0] then 1
    else NameCompare(a[1..], b[1..])
  }

  /** Names compare equal exactly when they are the same name. */
  lemma {:induction false} NameCompareZero(a: string, b: string)
    ensures NameCompare(a, b) == 0 <==> a == b
  {
    if a != [] && b != [] && a[0] == b[0] {
      NameCompareZero(a[1..], b[1..]);
      assert a == [a[0]] + a[1..] && b == [b[0]] + b[1..];
    }
  }

  /** Swapping the arguments negates the comparison. */
  lemma {:induction false} NameCompareFlip(a: string, b: string)
    ensures NameCompare(b, a) == -NameCompare(a, b)
  {
    if a != [] && b != [] && a[0] == b[0] {
      NameCompareFlip(a[1..], b[1..]);
    }
  }

  /** The name order is transitive. */
  lemma {:induction false} NameCompareTrans(a: string, b: string, c: string)
    requires NameCompare(a, b) <= 0 && NameCompare(b, c) <= 0
    ensures NameCompare(a, c) <= 0
  {
    if a != [] && b != [] && c != [] && a[0] == b[0] == c[0] {
      NameCompareTrans(a[1..], b[1..], c[1..]);
    }
  }

  /** The comparator handed to nodes.sort: folders before files, then by name. */
  function Compare(a: Node, b: Node): int
  {
    if a.isDir && !b.isDir then -1
    else if !a.isDir && b.isDir then 1
    else NameCompare(a.name, b.name)
  }

  /** The comparator is antisymmetric: it never puts a before b and b before a. */
  lemma CompareFlip(a: Node, b: Node)
    ensures Compare(b, a) == -Compare(a, b)
  {
    NameCompareFlip(a.name, b.name);
  }

  /** The comparator is transitive. */
  lemma CompareTrans(a: Node, b: Node, c: Node)
    requires Compare(a, b) <= 0 && Compare(b, c) <= 0
    ensures Compare(a, c) <= 0
  {
    if a.isDir == b.isDir == c.isDir {
      NameCompareTrans(a.name, b.name, c.name);
    }
  }

  /** The comparator ties exactly the nodes of one kind with one name. */
  lemma CompareZero(a: Node, b: Node)
    ensures Compare(a, b) == 0 <==> a.isDir == b.isDir && a.name == b.name
  {
    NameCompareZero(a.name, b.name);
  }

  /** s is ordered by the comparator. */
  predicate Sorted(s: seq<Node>)
  {
    forall i, j :: 0 <= i < j < |s| ==> Compare(s[i], s[j]) <= 0
  }

  /** a sorts no later than any node of s. */
  predicate LowerBound(a: Node, s: seq<Node>)
  {
    forall j :: 0 <= j < |s| ==> Compare(a, s[j]) <= 0
  }

  /** Inserts x before the first node it sorts no later than. */
  function Insert(x: Node, s: seq<Node>): seq<Node>
  {
    if s == [] || Compare(x, s[0]) <= 0 then [x] + s
    else [s[0]] + Insert(x, s[1..])
  }

  /** Insertion adds exactly x. */
  lemma {:induction false} InsertMultiset(x: Node, s: seq<Node>)
    ensures multiset(Insert(x, s)) == multiset(s) + multiset{x}
  {
    if s != [] && Compare(x, s[0]) > 0 {
      InsertMultiset(x, s[1..]);
      assert s == [s[0]] + s[1..];
    }
  }

  /** A bound below both x and s stays below the result of inserting x. */
  lemma {:induction false} InsertLowerBound(a: Node, x: Node, s: seq<Node>)
    requires LowerBound(a, s) && Compare(a, x) <= 0
    ensures LowerBound(a, Insert(x, s))
  {
    if s != [] && Compare(x, s[0]) > 0 {
      InsertLowerBound(a, x, s[1..]);
    }
  }

  /** Inserting into a sorted list keeps it sorted. */
  lemma {:induction false} InsertSorted(x: Node, s: seq<Node>)
    requires Sorted(s)
    ensures Sorted(Insert(x, s))
  {
    if s == [] {
    } else if Compare(x, s[0]) <= 0 {
      forall j | 0 < j < |s| ensures Compare(x, s[j]) <= 0 {
        CompareTrans(x, s[0], s[j]);
      }
    } else {
      InsertSorted(x, s[1..]);
      CompareFlip(x, s[0]);
      assert LowerBound(s[0], s[1..]);
      InsertLowerBound(s[0], x, s[1..]);
    }
  }

  /** nodes.sort(comparator): a sorted permutation of its input. */
  function SortNodes(s: seq<Node>): (r: seq<Node>)
    ensures Sorted(r)
    ensures multiset(r) == multiset(s)
    ensures |r| == |s|
  {
    if s == [] then []
    else
      var t := SortNodes(s[1..]);
      InsertSorted(s[0], t);
      InsertMultiset(s[0], t);
      assert s == [s[0]] + s[1..];
      Insert(s[0], t)
  }

  /** In a sorted list every folder comes before every file, and nodes of the same
      kind appear in non-decreasing name order. */
  lemma SortedFoldersFirst(s: seq<Node>)
    requires Sorted(s)
    ensures forall i, j :: 0 <= i < |s| && 0 <= j < |s| && s[i].isDir && !s[j].isDir ==> i < j
    ensures forall i, j :: 0 <= i < j < |s| && s[i].isDir == s[j].isDir ==> NameCompare(s[i].name, s[j].name) <= 0
  {
  }
}
