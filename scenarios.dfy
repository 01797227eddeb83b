/** Worked examples proved by the verifier on small backends: the folders-first sort
    order on a mixed listing, and openRoot on a root holding one file and one folder. */
module Scenarios {
  import opened Wrappers
  import opened Paths
  import opened Backend
  import opened Nodes
  import opened Loader

  /** A folder "b", a file "a" and a folder "a" sort as folder a, folder b, file a. */
  lemma SortExample()
    ensures SortNodes([BuildNode("b", true), BuildNode("a", false), BuildNode("a", true)])
         == [BuildNode("a", true), BuildNode("b", true), BuildNode("a", false)]
  {
    var da, db, fa := BuildNode("a", true), BuildNode("b", true), BuildNode("a", false);
    SortOne(da);
    assert SortNodes([fa, da]) == [da, fa] by {
      assert [fa, da][1..] == [da];
    }
    assert Insert(db, [da, fa]) == [da, db, fa] by {
      assert NameCompare("b", "a") == 1;
      assert [da, fa][1..] == [fa];
    }
    assert [db, fa, da][1..] == [fa, da];
  }

  lemma SortOne(n: Node)
    ensures SortNodes([n]) == [n]
  {
    assert [n][1..] == [];
  }

  /** A root listing ".", "..", the file "b.txt" of 10 bytes and the folder "a". */
  function RootWithTwoEntries(): Fs
  {
    Fs(map["/" := [".", "..", "b.txt", "a"], "/a" := [".", ".."]],
       map["/" := Stat(true, 0), "/b.txt" := Stat(false, 10), "/a" := Stat(true, 0)],
       map["/b.txt" := []])
  }

  lemma BuildDots()
    ensures BuildNodes(RootWithTwoEntries(), "/", [".", ".."]) == Ok([])
  {
    assert [".", ".."][..1] == ["."] && ["."][..0] == [];
  }

  lemma BuildFile()
    ensures BuildNodes(RootWithTwoEntries(), "/", [".", "..", "b.txt"]) == Ok([BuildNode("b.txt", false, 10)])
  {
    var fs := RootWithTwoEntries();
    var es := [".", "..", "b.txt"];
    assert es[..2] == [".", ".."] && es[2] == "b.txt";
    BuildDots();
    JoinRoot("b.txt");
    assert Join("/", "b.txt") == "/b.txt";
    assert StatOf(fs, "/b.txt") == Ok(Stat(false, 10));
    assert BuildNodes(fs, "/", es) == Step(Ok([]), fs, "/", "b.txt");
    assert [] + [BuildNode("b.txt", false, 10)] == [BuildNode("b.txt", false, 10)];
  }

  lemma BuildAll()
    ensures BuildNodes(RootWithTwoEntries(), "/", [".", "..", "b.txt", "a"])
         == Ok([BuildNode("b.txt", false, 10), BuildNode("a", true)])
  {
    var fs := RootWithTwoEntries();
    var es := [".", "..", "b.txt", "a"];
    var b := BuildNode("b.txt", false, 10);
    assert es[..3] == [".", "..", "b.txt"] && es[3] == "a";
    BuildFile();
    JoinRoot("a");
    assert Join("/", "a") == "/a";
    assert StatOf(fs, "/a") == Ok(Stat(true, 0));
    assert BuildNodes(fs, "/", es) == Step(Ok([b]), fs, "/", "a");
    assert [b] + [BuildNode("a", true)] == [b, BuildNode("a", true)];
  }

  /** Loading "/" of that backend drops the dot entries and yields the folder "a"
      (collapsed, childless, size 0) before the file "b.txt" of size 10. */
  lemma LoadRootExample()
    ensures Load(RootWithTwoEntries(), "/") == Ok([BuildNode("a", true), BuildNode("b.txt", false, 10)])
  {
    var a, b := BuildNode("a", true), BuildNode("b.txt", false, 10);
    BuildAll();
    SortOne(a);
    assert SortNodes([b, a]) == [a, b] by {
      assert [b, a][1..] == [a];
    }
  }
}
