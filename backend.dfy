/** The filesystem the browser talks to (the global `FS` object): a deterministic
    stand-in for its readdir, stat, writeFile, mkdir and unlink calls. A path that
    is not a key of a map is a path on which the corresponding call fails. */
module Backend {
  import opened Wrappers

  type Byte = bv8

  /** What FS.stat reports. */
  datatype Stat = Stat(isDirectory: bool, size: nat)

  datatype FsError =
    | NoEntry(path: string)
    | NotADirectory(path: string)
    | IsADirectory(path: string)
    | AlreadyExists(path: string)

  /** listing: the raw readdir result of each directory ("." and ".." included, as
      the backend reports them); stat: what stat reports per path; data: file bytes. */
  datatype Fs = Fs(listing: map<string, seq<string>>, stat: map<string, Stat>, data: map<string, seq<Byte>>)

  predicate IsDirectory(fs: Fs, p: string)
  {
    p in fs.listing || (p in fs.stat && fs.stat[p].isDirectory)
  }

  /** FS.readdir */
  function ReadDir(fs: Fs, p: string): Result<seq<string>, FsError>
  {
    if p in fs.listing then Ok(fs.listing[p])
    else if p in fs.stat then Err(NotADirectory(p))
    else Err(NoEntry(p))
  }

  /** FS.stat */
  function StatOf(fs: Fs, p: string): Result<Stat, FsError>
  {
    if p in fs.stat then Ok(fs.stat[p]) else Err(NoEntry(p))
  }

  /** Index of the last '/' of p, or -1. */
  function LastSlash(p: string): (k: int)
    ensures -1 <= k < |p|
    ensures k >= 0 ==> p[k] == '/'
  {
    if |p| == 0 then -1
    else if p[|p| - 1] == '/' then |p| - 1
    else LastSlash(p[..|p| - 1])
  }

  /** The directory holding p and p's last segment. */
  function Split(p: string): Option<(string, string)>
  {
    var k := LastSlash(p);
    if k < 0 then None
    else Some((if k == 0 then "/" else p[..k], p[k + 1..]))
  }

  function AddName(names: seq<string>, n: string): (r: seq<string>)
    ensures n in r
    ensures forall m :: m in names ==> m in r
  {
    if n in names then names else names + [n]
  }

  function RemoveName(names: seq<string>, n: string): (r: seq<string>)
    ensures n !in r
    ensures forall m :: m in names && m != n ==> m in r
  {
    if names == [] then []
    else if names[0] == n then RemoveName(names[1..], n)
    else [names[0]] + RemoveName(names[1..], n)
  }

  /** FS.writeFile: creates or overwrites a file in an existing directory. */
  function WriteFile(fs: Fs, p: string, bytes: seq<Byte>): Result<Fs, FsError>
  {
    match Split(p)
    case None => Err(NoEntry(p))
    case Some((dir, base)) =>
      if dir !in fs.listing then Err(NoEntry(dir))
      else if base == "" || IsDirectory(fs, p) then Err(IsADirectory(p))
      else Ok(Fs(fs.listing[dir := AddName(fs.listing[dir], base)],
                 fs.stat[p := Stat(false, |bytes|)],
                 fs.data[p := bytes]))
  }

  /** FS.mkdir: creates an empty directory in an existing directory. */
  function Mkdir(fs: Fs, p: string): Result<Fs, FsError>
  {
    match Split(p)
    case None => Err(NoEntry(p))
    case Some((dir, base)) =>
      if dir !in fs.listing then Err(NoEntry(dir))
      else if base == "" || p in fs.stat || p in fs.listing then Err(AlreadyExists(p))
      else Ok(Fs(fs.listing[dir := AddName(fs.listing[dir], base)][p := [".", ".."]],
                 fs.stat[p := Stat(true, 0)],
                 fs.data))
  }

  /** FS.unlink: removes a file (not a directory). */
  function Unlink(fs: Fs, p: string): Result<Fs, FsError>
  {
    if p !in fs.stat then Err(NoEntry(p))
    else if IsDirectory(fs, p) then Err(IsADirectory(p))
    else
      var listing :=
        match Split(p)
        case Some((dir, base)) =>
          if dir in fs.listing then fs.listing[dir := RemoveName(fs.listing[dir], base)] else fs.listing
        case None => fs.listing;
      Ok(Fs(listing, fs.stat - {p}, fs.data - {p}))
  }
}
