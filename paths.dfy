/** The path-join idiom of src/lib/filesystem.js: the template string `${a}/${b}`
    followed by `.replace('//', '/')`, which rewrites only the FIRST "//". */
module Paths {

  /** "//" starts at index i of s. */
  predicate DoubleSlashAt(s: string, i: int)
  {
    0 <= i && i + 1 < |s| && s[i] == '/' && s[i + 1] == '/'
  }

  /** s contains no "//" at all. */
  predicate NoDoubleSlash(s: string)
  {
    forall i :: 0 <= i < |s| ==> !DoubleSlashAt(s, i)
  }

  /** String.prototype.replace with the string pattern "//" and replacement "/":
      the leftmost occurrence, and only that one, loses one of its slashes
      (CollapseNone and CollapseLeftmost state this). */
  function CollapseFirst(s: string): (r: string)
    ensures |r| == |s| || |r| == |s| - 1
  {
    if |s| < 2 then s
    else if s[0] == '/' && s[1] == '/' then s[1..]
    else [s[0]] + CollapseFirst(s[1..])
  }

  /** "//" occurs at i and nowhere before i. */
  predicate LeftmostDoubleSlash(s: string, i: int)
  {
    DoubleSlashAt(s, i) && forall j :: 0 <= j < i ==> !DoubleSlashAt(s, j)
  }

  /** A text without "//" is left as it is. */
  lemma {:induction false} CollapseNone(s: string)
    requires NoDoubleSlash(s)
    ensures CollapseFirst(s) == s
  {
    if |s| >= 2 {
      assert !DoubleSlashAt(s, 0);
      forall i | 0 <= i < |s[1..]| ensures !DoubleSlashAt(s[1..], i) {
        assert !DoubleSlashAt(s, i + 1);
      }
      CollapseNone(s[1..]);
    }
  }

  /** Only the leftmost "//" loses a slash; everything after it is kept, including
      any later "//". */
  lemma {:induction false} CollapseLeftmost(s: string, i: int)
    requires LeftmostDoubleSlash(s, i)
    ensures CollapseFirst(s) == s[..i] + s[i + 1..]
    decreases i
  {
    if i == 0 {
      assert s[..0] + s[1..] == s[1..];
    } else {
      var t := s[1..];
      assert !DoubleSlashAt(s, 0);
      assert CollapseFirst(s) == [s[0]] + CollapseFirst(t);
      assert LeftmostDoubleSlash(t, i - 1) by {
        assert DoubleSlashAt(t, i - 1);
        forall j | 0 <= j < i - 1 ensures !DoubleSlashAt(t, j) {
          assert !DoubleSlashAt(s, j + 1);
        }
      }
      CollapseLeftmost(t, i - 1);
      assert t[..i - 1] + t[i..] == s[1..i] + s[i + 1..];
      assert s[..i] == [s[0]] + s[1..i];
    }
  }

  /** `${a}/${b}`.replace('//', '/') */
  function Join(a: string, b: string): string
  {
    CollapseFirst(a + "/" + b)
  }

  /** Joining onto a directory text that already ends with '/' (the root "/" in
      particular) yields a + b: the doubled slash at the seam is the first "//". */
  lemma JoinAfterSlash(a: string, b: string)
    requires NoDoubleSlash(a) && |a| > 0 && a[|a| - 1] == '/'
    ensures Join(a, b) == a + b
  {
    var s := a + "/" + b;
    var i := |a| - 1;
    assert DoubleSlashAt(s, i);
    forall j | 0 <= j < i ensures !DoubleSlashAt(s, j) {
      assert !DoubleSlashAt(a, j);
    }
    CollapseLeftmost(s, i);
    assert s[..i] + s[i + 1..] == a + b;
  }

  /** Joining "/" and any name n gives "/" + n, whatever n contains. */
  lemma JoinRoot(n: string)
    ensures Join("/", n) == "/" + n
  {
    JoinAfterSlash("/", n);
  }

  /** Without a slash at the seam, the join is the plain concatenation when b has
      no "//", and otherwise the first "//" inside b is the one collapsed. */
  lemma JoinPlain(a: string, b: string)
    requires NoDoubleSlash(a) && (|a| == 0 || a[|a| - 1] != '/')
    requires |b| == 0 || b[0] != '/'
    ensures Join(a, b) == a + "/" + CollapseFirst(b)
  {
    var x := a + "/";
    forall i | 0 <= i < |x| ensures !DoubleSlashAt(x, i) {
      if i + 1 < |a| { assert !DoubleSlashAt(a, i); }
    }
    CollapseAppend(x, b);
    assert a + "/" + b == x + b;
  }

  /** A prefix without "//" that does not form one at the seam passes through the
      collapse unchanged. */
  lemma {:induction false} CollapseAppend(x: string, y: string)
    requires NoDoubleSlash(x)
    requires !(|x| > 0 && |y| > 0 && x[|x| - 1] == '/' && y[0] == '/')
    ensures CollapseFirst(x + y) == x + CollapseFirst(y)
  {
    if |x| > 0 {
      var s := x + y;
      if |s| >= 2 {
        assert !DoubleSlashAt(x, 0);
        assert !(s[0] == '/' && s[1] == '/');
        assert s[1..] == x[1..] + y;
        forall i | 0 <= i < |x[1..]| ensures !DoubleSlashAt(x[1..], i) {
          assert !DoubleSlashAt(x, i + 1);
        }
        CollapseAppend(x[1..], y);
        assert CollapseFirst(s) == [s[0]] + CollapseFirst(s[1..]);
        assert x == [x[0]] + x[1..];
      } else {
        assert y == [] && s == x;
      }
    } else {
      assert x + y == y;
    }
  }

  /** Two texts without "//" concatenate to one without "//" unless the seam forms one. */
  lemma NoDoubleSlashConcat(x: string, y: string)
    requires NoDoubleSlash(x) && NoDoubleSlash(y)
    requires !(|x| > 0 && |y| > 0 && x[|x| - 1] == '/' && y[0] == '/')
    ensures NoDoubleSlash(x + y)
  {
    var s := x + y;
    forall i | 0 <= i < |s| ensures !DoubleSlashAt(s, i) {
      if i + 1 < |x| {
        assert !DoubleSlashAt(x, i);
      } else if i >= |x| {
        assert !DoubleSlashAt(y, i - |x|);
      }
    }
  }

  /** A join onto a text that does not start with '/' starts with that text's first
      character: the collapse cannot reach the front. */
  lemma JoinFirst(a: string, b: string)
    requires |a| > 0 && a[0] != '/'
    ensures |Join(a, b)| > 0 && Join(a, b)[0] == a[0]
  {
    var s := a + "/" + b;
    assert s[0] == a[0];
  }
}
