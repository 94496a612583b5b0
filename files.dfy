/**
 * The filesystem the handler works on: a map from file path to contents
 * and a set of directory paths. Each method is one PHP filesystem call.
 */
module Files {
  import opened Paths

  type byte = bv8

  /** `p` is an immediate entry of directory `d`: `d/name` with a non-empty name without separators. */
  predicate ChildOf(d: string, p: string) {
    |p| > |d| + 1 && p[..|d|] == d && p[|d|] == Separator && Separator !in p[|d| + 1..]
  }

  /** The entry name `scandir` reports for an immediate entry. */
  function EntryName(d: string, p: string): (n: string)
    requires ChildOf(d, p)
    ensures n != [] && Separator !in n && p == Join(d, n)
  {
    assert p == p[..|d|] + [p[|d|]] + p[|d| + 1..];
    p[|d| + 1..]
  }

  /** An entry has exactly one parent directory. */
  lemma ChildOfUnique(d1: string, d2: string, p: string)
    requires ChildOf(d1, p) && ChildOf(d2, p)
    ensures d1 == d2
  {
  }

  lemma ChildOfJoin(d: string, name: string)
    requires name != [] && Separator !in name
    ensures ChildOf(d, Join(d, name)) && EntryName(d, Join(d, name)) == name
  {
    var p := Join(d, name);
    assert p[..|d|] == d && p[|d| + 1..] == name;
  }

  /** A path written with a trailing separator, such as `up/`, which names a directory. */
  predicate EndsInSeparator(p: string) {
    p != [] && p[|p| - 1] == Separator
  }

  /** The path ends in a component `.` or `..` written after a separator, as `up/u/.` does. */
  predicate EndsInDotComponent(p: string) {
    (|p| >= 2 && p[|p| - 2..] == [Separator, '.']) || (|p| >= 3 && p[|p| - 3..] == [Separator, '.', '.'])
  }

  /** What comes before that final separator: `up/u` for `up/u/.` and for `up/u/..`. */
  function DotParent(p: string): (r: string)
    requires EndsInDotComponent(p)
    ensures p == Join(r, ".") || p == Join(r, "..")
  {
    if p[|p| - 2..] == [Separator, '.'] then p[..|p| - 2] else p[..|p| - 3]
  }

  /** `d`, once its trailing separators are stripped, is a directory of the state or the root (`""`). */
  predicate IsDirectory(dirs: set<string>, d: string) {
    var s := StripTrailingSeparators(d);
    s == [] || s in dirs
  }

  /**
   * `file_exists`: a path with trailing separators, or one whose last
   * component is `.` or `..`, names a directory and exists when that
   * directory does; any other path exists as a file or a directory.
   */
  function PathExists(files: set<string>, dirs: set<string>, p: string): (r: bool)
    ensures EndsInSeparator(p) ==> (r <==> IsDirectory(dirs, p))
    ensures !EndsInSeparator(p) && EndsInDotComponent(p) ==> (r <==> IsDirectory(dirs, DotParent(p)))
    ensures !EndsInSeparator(p) && !EndsInDotComponent(p) ==> (r <==> p in files || p in dirs)
  {
    if EndsInSeparator(p) then IsDirectory(dirs, p)
    else if EndsInDotComponent(p) then IsDirectory(dirs, DotParent(p))
    else p in files || p in dirs
  }

  /**
   * A final `.` or `..` component is what `basename` reports, and the
   * directory it stands for is the one `dirname` reports.
   */
  lemma DotComponentIsBasename(p: string)
    requires EndsInDotComponent(p)
    ensures IsDot(Basename(p))
    ensures var d := StripTrailingSeparators(DotParent(p)); Dirname(p) == if d == [] then [Separator] else d
  {
    var d := DotParent(p);
    if p == Join(d, ".") {
      BasenameOfJoin(d, ".");
    } else {
      BasenameOfJoin(d, "..");
    }
  }

  /** Conversely, a path holding a separator whose `basename` is `.` or `..` ends in such a component. */
  lemma DotBasenameIsDotComponent(p: string)
    requires !EndsInSeparator(p) && Separator in p && IsDot(Basename(p))
    ensures EndsInDotComponent(p)
  {
    StripNothing(p);
    var b := Basename(p);
    assert |b| < |p|;
    DotAfterSeparator(p, b);
  }

  lemma DotAfterSeparator(p: string, b: string)
    requires |b| < |p| && IsDot(b) && p[|p| - |b|..] == b && p[|p| - |b| - 1] == Separator
    ensures EndsInDotComponent(p)
  {
    var k := |p| - |b| - 1;
    assert p[|p| - |b|..] == p[k + 1..];
    assert p[k..] == [p[k]] + p[k + 1..];
  }

  /** `d/.` exists exactly when the directory `d` does. */
  lemma DotEntryExists(files: set<string>, dirs: set<string>, d: string)
    requires !EndsInSeparator(d)
    ensures EndsInDotComponent(Join(d, ".")) && DotParent(Join(d, ".")) == d
    ensures PathExists(files, dirs, Join(d, ".")) <==> d == [] || d in dirs
  {
    var c := Join(d, ".");
    assert c[|c| - 2..] == [Separator, '.'];
    StripNothing(d);
  }

  /** `file_exists` on a fixed state, as a test on paths. */
  function FileExistsIn(files: set<string>, dirs: set<string>): string -> bool {
    p => PathExists(files, dirs, p)
  }

  /** Whether directory `d` has any entry, file or directory, in the given state. */
  predicate HasEntry(files: map<string, seq<byte>>, dirs: set<string>, d: string) {
    exists p :: p in files.Keys + dirs && ChildOf(d, p)
  }

  /** The directory set after `rmdir(d)`: it succeeds only on an existing, empty directory. */
  function AfterRmdir(files: map<string, seq<byte>>, dirs: set<string>, d: string): (r: set<string>)
    ensures r <= dirs && dirs - r <= {d}
    ensures d !in r <==> d !in dirs || !HasEntry(files, dirs, d)
  {
    if d in dirs && !HasEntry(files, dirs, d) then dirs - {d} else dirs
  }

  class FileSystem {
    var files: map<string, seq<byte>>
    var dirs: set<string>

    constructor (files: map<string, seq<byte>>, dirs: set<string>)
      ensures this.files == files && this.dirs == dirs
    {
      this.files := files;
      this.dirs := dirs;
    }

    /** `file_exists` on the current state: a stored file or directory, or a path that can only name a directory of it. */
    function Exists(p: string): (r: bool)
      reads this
      ensures p in files || p in dirs ==> r || EndsInSeparator(p) || EndsInDotComponent(p)
      ensures r ==> p in files || p in dirs || IsDirectory(dirs, p) || (EndsInDotComponent(p) && IsDirectory(dirs, DotParent(p)))
    {
      PathExists(files.Keys, dirs, p)
    }

    /** `unlink`: removes a file; fails and changes nothing on a directory or a missing path. */
    method Unlink(p: string) returns (ok: bool)
      modifies this
      ensures ok == (p in old(files))
      ensures files == old(files) - {p} && dirs == old(dirs)
    {
      ok := p in files;
      files := files - {p};
    }

    /** `rmdir`: removes an existing directory only when it has no entries. */
    method Rmdir(d: string) returns (ok: bool)
      modifies this
      ensures ok == (d in old(dirs) && !HasEntry(old(files), old(dirs), d))
      ensures files == old(files) && dirs == AfterRmdir(old(files), old(dirs), d)
    {
      ok := d in dirs && !HasEntry(files, dirs, d);
      if ok {
        dirs := dirs - {d};
      }
    }

    /**
     * `mkdir($d, 0777, true)`: afterwards `d` is a directory. The missing
     * ancestors the recursive flag would create are not tracked.
     */
    method Mkdir(d: string)
      modifies this
      ensures dirs == old(dirs) + {d} && files == old(files)
    {
      dirs := dirs + {d};
    }

    /** Writing a whole file: `fopen(.., 'wb')` plus the copies, `move_uploaded_file`, `touch` on a new path. */
    method WriteFile(p: string, data: seq<byte>)
      modifies this
      ensures files == old(files)[p := data] && dirs == old(dirs)
    {
      files := files[p := data];
    }
  }
}
