/**
 * The part of Python's `os` and `os.path` (POSIX flavour) that the image
 * files module relies on: `isabs`, `join`, `splitext`, `abspath`, `exists`
 * and `remove`.  The filesystem is a set of absolute paths of existing
 * entries together with the process's working directory.
 */
module OsPath {
  import opened Wrappers

  type Path = string

  /** The error `os.path.exists`-style lookups and `os.remove` report. */
  datatype IoError = FileNotFound

  /** `os.path.isabs`: a POSIX path is absolute when it starts with a slash. */
  predicate IsAbs(p: Path)
    ensures IsAbs(p) <==> exists rest :: p == "/" + rest
  {
    if |p| > 0 && p[0] == '/' then
      assert p == "/" + p[1..];
      true
    else
      false
  }

  /** `os.path.join(a, b)`: an absolute `b` replaces `a`; otherwise `b` is
      appended to `a` with exactly one separating slash added when `a` is
      neither empty nor ends in one. */
  function Join(a: Path, b: Path): (r: Path)
    ensures IsAbs(b) ==> r == b
    ensures !IsAbs(b) ==> a <= r && |b| <= |r| && r[|r| - |b|..] == b
    ensures !IsAbs(b) && a != "" && a[|a| - 1] != '/' ==> |r| == |a| + 1 + |b| && r[|a|] == '/'
    ensures !IsAbs(b) && (a == "" || a[|a| - 1] == '/') ==> r == a + b
    ensures IsAbs(a) ==> IsAbs(r)
  {
    if IsAbs(b) then b
    else if a == "" || a[|a| - 1] == '/' then a + b
    else a + "/" + b
  }

  /** `os.path.abspath`, relative to the working directory `cwd`.  The
      normalisation of `.`, `..` and repeated slashes is not modelled. */
  function AbsPath(cwd: Path, p: Path): (r: Path)
    ensures IsAbs(p) ==> r == p
    ensures IsAbs(cwd) ==> IsAbs(r)
    ensures !IsAbs(p) ==> cwd <= r && r == Join(cwd, p)
  {
    if IsAbs(p) then p else Join(cwd, p)
  }

  /** Making a path absolute twice is the same as doing it once, since the
      working directory of a process is always absolute. */
  lemma AbsPathIdempotent(cwd: Path, p: Path)
    requires IsAbs(cwd)
    ensures AbsPath(cwd, AbsPath(cwd, p)) == AbsPath(cwd, p)
  {
  }

  /** `os.path.exists(p)`: the empty path never exists; any other path
      exists when its absolute form names an entry. */
  predicate PathExists(entries: set<Path>, cwd: Path, p: Path)
    ensures p == "" ==> !PathExists(entries, cwd, p)
    ensures IsAbs(p) ==> (PathExists(entries, cwd, p) <==> p in entries)
  {
    p != "" && AbsPath(cwd, p) in entries
  }

  /** `str.rfind(c)`: the index of the last occurrence of `c` in `s`, or -1. */
  function RFind(s: string, c: char): (i: int)
    ensures -1 <= i < |s|
    ensures 0 <= i ==> s[i] == c
    ensures forall j :: i < j < |s| ==> s[j] != c
  {
    if s == [] then -1
    else if s[|s| - 1] == c then |s| - 1
    else RFind(s[..|s| - 1], c)
  }

  /** A file-name extension as `splitext` produces it: a dot followed by
      characters that are neither dots nor slashes. */
  predicate IsExtension(e: string) {
    |e| >= 1 && e[0] == '.' && forall k :: 0 < k < |e| ==> e[k] != '.' && e[k] != '/'
  }

  /** The last path component of `s` contains a character other than a dot
      (so it is not a bare "hidden file" prefix such as `.` or `..`). */
  predicate HasStem(s: string) {
    exists k :: 0 <= k < |s| && s[k] != '.' && s[k] != '/' && NoSlashAfter(s, k)
  }

  predicate NoSlashAfter(s: string, k: int) {
    forall j :: 0 <= j < |s| && k < j ==> s[j] != '/'
  }

  /** `os.path.splitext(p)`: the extension starts at the last dot of the last
      path component, provided that component has a non-dot character
      before that dot; otherwise the extension is empty. */
  function SplitExt(p: Path): (r: (Path, string))
    ensures r.0 + r.1 == p
    ensures r.1 == "" || IsExtension(r.1)
    ensures r.1 != "" ==> HasStem(r.0)
  {
    var sep := RFind(p, '/');
    var dot := RFind(p, '.');
    if sep < dot && exists k | sep < k < dot :: p[k] != '.' then
      var k :| sep < k < dot && p[k] != '.';
      ExtensionAfter(p, dot);
      StemBefore(p, k, dot);
      assert p[..dot] + p[dot..] == p;
      (p[..dot], p[dot..])
    else
      (p, "")
  }

  /** The tail from a dot on, with no dot or slash after it, is an
      extension. */
  lemma ExtensionAfter(p: Path, dot: int)
    requires 0 <= dot < |p| && p[dot] == '.'
    requires forall j :: dot < j < |p| ==> p[j] != '.' && p[j] != '/'
    ensures IsExtension(p[dot..])
  {
    assert forall k :: 0 < k < |p| - dot ==> p[dot..][k] == p[dot + k];
  }

  /** A prefix holding a character that is neither a dot nor a slash, with
      no slash after it, has a stem. */
  lemma StemBefore(p: Path, k: int, dot: int)
    requires 0 <= k < dot <= |p| && p[k] != '.' && p[k] != '/'
    requires forall j :: k < j < |p| ==> p[j] != '/'
    ensures HasStem(p[..dot])
  {
    assert NoSlashAfter(p[..dot], k);
  }

  /** `splitext` undoes appending an extension to a name that has a stem. */
  lemma {:induction false} SplitExtAppended(stem: Path, e: string)
    requires HasStem(stem) && IsExtension(e)
    ensures SplitExt(stem + e) == (stem, e)
  {
    var p := stem + e;
    var k :| 0 <= k < |stem| && stem[k] != '.' && stem[k] != '/' && NoSlashAfter(stem, k);
    assert p[|stem|] == '.';
    assert forall j :: |stem| < j < |p| ==> p[j] == e[j - |stem|];
    assert RFind(p, '.') == |stem|;
    assert p[k] == stem[k];
    assert RFind(p, '/') < k;
    assert p[..|stem|] == stem && p[|stem|..] == e;
  }

  /** The filesystem: the absolute paths of the entries that exist (files or
      directories), and the working directory relative paths resolve
      against. */
  class FileSystem {
    var entries: set<Path>
    const cwd: Path

    constructor (entries: set<Path>, cwd: Path)
      ensures this.entries == entries && this.cwd == cwd
    {
      this.entries := entries;
      this.cwd := cwd;
    }

    /** `os.path.exists(p)` on this filesystem. */
    predicate Exists(p: Path)
      reads this
      ensures p == "" ==> !Exists(p)
      ensures IsAbs(p) ==> (Exists(p) <==> p in entries)
    {
      PathExists(entries, cwd, p)
    }

    /** `os.remove(p)`: deletes the entry, or raises when it does not exist. */
    method Remove(p: Path) returns (r: Outcome<IoError>)
      modifies this
      ensures r == if old(Exists(p)) then Pass else Fail(FileNotFound)
      ensures entries == if r.Pass? then old(entries) - {AbsPath(cwd, p)} else old(entries)
      ensures !Exists(p)
    {
      if Exists(p) {
        entries := entries - {AbsPath(cwd, p)};
        r := Pass;
      } else {
        r := Fail(FileNotFound);
      }
    }

    /** Opening `p` for writing: afterwards an entry exists at `p`. */
    method Create(p: Path)
      requires p != ""
      modifies this
      ensures entries == old(entries) + {AbsPath(cwd, p)}
      ensures Exists(p)
    {
      entries := entries + {AbsPath(cwd, p)};
    }
  }
}
