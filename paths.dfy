/**
 * Path handling as the upload handler uses it: joining with the directory
 * separator ('/'), and PHP's `basename`, `dirname` and `pathinfo`.
 */
module Paths {
  import opened Wrappers

  const Separator: char := '/'

  /** `join(DIRECTORY_SEPARATOR, [a, b])`, also `a . '/' . b`. */
  function Join(a: string, b: string): string {
    a + [Separator] + b
  }

  /** The position of the last `c` in `s` (PHP's `strrpos`), if any. */
  function LastIndex(s: string, c: char): (r: Option<nat>)
    ensures r.Some? ==> r.value < |s| && s[r.value] == c && c !in s[r.value + 1..]
    ensures r.None? ==> c !in s
  {
    if s == [] then None
    else if s[|s| - 1] == c then Some(|s| - 1)
    else
      var r := LastIndex(s[..|s| - 1], c);
      assert r.Some? ==> s[r.value + 1..] == s[..|s| - 1][r.value + 1..] + [s[|s| - 1]];
      assert s == s[..|s| - 1] + [s[|s| - 1]];
      r
  }

  lemma LastIndexAt(a: string, c: char, b: string)
    requires c !in b
    ensures LastIndex(a + [c] + b, c) == Some(|a|)
  {
    var s := a + [c] + b;
    assert s[|a|] == c && s[|a| + 1..] == b;
  }

  function StripTrailingSeparators(s: string): (r: string)
    ensures |r| <= |s| && r == s[..|r|] && (r == [] || r[|r| - 1] != Separator)
    ensures forall j :: |r| <= j < |s| ==> s[j] == Separator
  {
    if s != [] && s[|s| - 1] == Separator then StripTrailingSeparators(s[..|s| - 1]) else s
  }

  /** `.` or `..`: a name that always denotes a directory (the one it is in, or its parent). */
  predicate IsDot(n: string) {
    n == "." || n == ".."
  }

  /** PHP's `basename`: the last component, trailing separators ignored. */
  function Basename(path: string): (r: string)
    ensures Separator !in r
    ensures var t := StripTrailingSeparators(path);
      |r| <= |t| && r == t[|t| - |r|..] && (|r| < |t| ==> t[|t| - |r| - 1] == Separator)
  {
    var t := StripTrailingSeparators(path);
    match LastIndex(t, Separator)
    case None => t
    case Some(i) => t[i + 1..]
  }

  /**
   * PHP's `dirname`: drop the trailing separators, the last component and
   * the separators in front of it. A path without a separator gives ".",
   * one where nothing but separators would be left gives "/", and "" gives "".
   */
  function Dirname(path: string): (r: string)
    ensures r == [] <==> path == []
    ensures path != [] ==> r == "." || r == [Separator] || (|r| < |path| && r == path[..|r|] && r[|r| - 1] != Separator)
  {
    if path == [] then [] else
    var t := StripTrailingSeparators(path);
    if t == [] then [Separator] else
    match LastIndex(t, Separator)
    case None => "."
    case Some(i) =>
      var h := StripTrailingSeparators(t[..i]);
      assert h == path[..|h|];
      if h == [] then [Separator] else h
  }

  /**
   * The value of `dirname`, in terms of the stripped path `t` and the
   * position `k` where its last component (`basename`) starts: "." when
   * `t` has no separator, "/" when nothing but separators precedes `k`,
   * and otherwise `t[..k]` without its trailing separators.
   */
  lemma DirnameValue(path: string)
    requires path != []
    ensures var t := StripTrailingSeparators(path);
      var k := |t| - |Basename(path)|;
      var r := Dirname(path);
      if t == [] then r == [Separator]
      else if Separator !in t then r == "."
      else if forall j :: 0 <= j < k ==> t[j] == Separator then r == [Separator]
      else |r| <= k && r == t[..|r|] && r[|r| - 1] != Separator && forall j :: |r| <= j < k ==> t[j] == Separator
  {
    var t := StripTrailingSeparators(path);
    if t != [] {
      match LastIndex(t, Separator)
      case None =>
      case Some(i) =>
        DirnameSplit(path, i);
        var h := StripTrailingSeparators(t[..i]);
        if h == [] {
          SeparatorsUpTo(t, i);
        } else {
          KeptPrefix(t, i);
        }
    }
  }

  /** With its last separator at `i`, the stripped path splits into `dirname`'s source `t[..i]` and `basename`. */
  lemma DirnameSplit(path: string, i: nat)
    requires path != [] && StripTrailingSeparators(path) != []
    requires LastIndex(StripTrailingSeparators(path), Separator) == Some(i)
    ensures var t := StripTrailingSeparators(path); var h := StripTrailingSeparators(t[..i]);
      |Basename(path)| == |t| - i - 1 && Dirname(path) == if h == [] then [Separator] else h
  {
  }

  /** Only separators up to the last one at `i` when `t[..i]` strips to nothing. */
  lemma SeparatorsUpTo(t: string, i: nat)
    requires i < |t| && t[i] == Separator && StripTrailingSeparators(t[..i]) == []
    ensures forall j :: 0 <= j < i + 1 ==> t[j] == Separator
  {
    forall j | 0 <= j < i + 1 ensures t[j] == Separator {
      if j < i {
        assert t[..i][j] == t[j];
      }
    }
  }

  /** When `t[..i]` strips to a non-empty `h`, `h` is a prefix of `t` followed by separators up to `i`. */
  lemma KeptPrefix(t: string, i: nat)
    requires i < |t| && t[i] == Separator && StripTrailingSeparators(t[..i]) != []
    ensures var h := StripTrailingSeparators(t[..i]);
      |h| <= i && h == t[..|h|] && t[|h| - 1] != Separator && forall j :: |h| <= j < i + 1 ==> t[j] == Separator
  {
    var h := StripTrailingSeparators(t[..i]);
    assert t[|h| - 1] == t[..i][|h| - 1];
    forall j | |h| <= j < i + 1 ensures t[j] == Separator {
      if j < i {
        assert t[..i][j] == t[j];
      }
    }
  }

  /** Values of `dirname` as PHP documents them, doubled and leading separators included. */
  lemma DirnameExamples()
    ensures Dirname("up//n") == "up"
    ensures Dirname("up/n/") == "up"
    ensures Dirname("/n") == "/"
    ensures Dirname("/") == "/"
    ensures Dirname("n") == "."
    ensures Dirname("") == ""
  {
    assert StripTrailingSeparators("up//n") == "up//n";
    assert LastIndex("up//n", Separator) == Some(3) by {
      assert "up/" + [Separator] + "n" == "up//n";
      LastIndexAt("up/", Separator, "n");
    }
    assert "up//n"[..3] == "up/";
    assert StripTrailingSeparators("up/") == "up";
    assert StripTrailingSeparators("up/n/") == "up/n";
    assert LastIndex("up/n", Separator) == Some(2) by { LastIndexAt("up", Separator, "n"); }
    assert LastIndex("/n", Separator) == Some(0) by { LastIndexAt("", Separator, "n"); }
    assert StripTrailingSeparators("/") == "";
  }

  /** What `pathinfo` returns: the `filename` entry and, when it is set, the `extension` entry. */
  datatype PathInfo = PathInfo(filename: string, extension: Option<string>)

  /** How `pathinfo` splits a basename: at its last '.', when there is one. */
  function SplitName(b: string): (r: PathInfo)
    ensures r.extension.None? ==> r.filename == b && '.' !in b
    ensures r.extension.Some? ==> b == r.filename + "." + r.extension.value && '.' !in r.extension.value
  {
    match LastIndex(b, '.')
    case None => PathInfo(b, None)
    case Some(i) =>
      assert b == b[..i] + "." + b[i + 1..];
      PathInfo(b[..i], Some(b[i + 1..]))
  }

  /**
   * PHP's `pathinfo`: split the basename at its last '.'. There is an
   * extension exactly when the basename holds a '.'. Filename, '.' and
   * extension put the basename back together; neither part holds a
   * separator, and the extension holds no '.'.
   */
  function PathInfoOf(path: string): (r: PathInfo)
    ensures Basename(path) == if r.extension.Some? then r.filename + "." + r.extension.value else r.filename
    ensures Separator !in r.filename
    ensures r.extension.Some? ==> Separator !in r.extension.value && '.' !in r.extension.value
    ensures r.extension.None? <==> '.' !in Basename(path)
  {
    var b := Basename(path);
    var info := SplitName(b);
    if info.extension.Some? then PartsOfPlain(b, info.filename, info.extension.value); info else info
  }

  /** `isset($pathinfo['extension']) ? $pathinfo['extension'] : ''`. */
  function Extension(path: string): string {
    PathInfoOf(path).extension.GetOr("")
  }

  /** `pathinfo("..")`: the last `.` splits it into the filename `.` and an empty extension. */
  lemma PathInfoOfDotDot()
    ensures PathInfoOf("..").filename == "." && PathInfoOf("..").extension == Some("") && Extension("..") == ""
  {
    BasenameOfName("..");
  }

  /** A path that does not end in a separator is not changed by stripping. */
  lemma StripNothing(s: string)
    requires s == [] || s[|s| - 1] != Separator
    ensures StripTrailingSeparators(s) == s
  {
  }

  /** A name without separators is its own basename. */
  lemma BasenameOfName(name: string)
    requires Separator !in name
    ensures Basename(name) == name
  {
    if name != [] {
      assert name[|name| - 1] in name;
    }
    StripNothing(name);
  }

  /** A single component appended to a directory is what `basename` gives back. */
  lemma BasenameOfJoin(dir: string, name: string)
    requires name != [] && Separator !in name
    ensures Basename(Join(dir, name)) == name
    ensures var d := StripTrailingSeparators(dir); Dirname(Join(dir, name)) == (if d == [] then [Separator] else d)
  {
    var s := Join(dir, name);
    JoinEndsInName(dir, name);
    LastIndexAt(dir, Separator, name);
    assert s[|dir| + 1..] == name;
    DirnameOfJoin(dir, name);
  }

  /** Joining a name without separators ends in that name, not in a separator. */
  lemma JoinEndsInName(dir: string, name: string)
    requires name != [] && Separator !in name
    ensures StripTrailingSeparators(Join(dir, name)) == Join(dir, name)
  {
    var s := Join(dir, name);
    assert s[|s| - 1] == name[|name| - 1] && name[|name| - 1] in name;
    StripNothing(s);
  }

  /** The parent of `dir/name` is `dir` without its trailing separators, or the root. */
  lemma DirnameOfJoin(dir: string, name: string)
    requires name != [] && Separator !in name
    ensures var d := StripTrailingSeparators(dir); Dirname(Join(dir, name)) == (if d == [] then [Separator] else d)
  {
    var s := Join(dir, name);
    JoinEndsInName(dir, name);
    LastIndexAt(dir, Separator, name);
    DirnameSplit(s, |dir|);
    PrefixOfJoin(dir, name);
  }

  lemma PrefixOfJoin(dir: string, name: string)
    ensures Join(dir, name)[..|dir|] == dir
  {
  }

  /** A name without a '.' has no extension and is all filename. */
  lemma SplitNameWithoutDot(b: string)
    requires '.' !in b
    ensures SplitName(b) == PathInfo(b, None)
  {
  }

  /** A name without separators splits at its last '.' into stem and extension. */
  lemma PathInfoOfStemDotExtension(stem: string, ext: string)
    requires Separator !in stem && Separator !in ext && '.' !in ext
    ensures PathInfoOf(stem + "." + ext) == PathInfo(stem, Some(ext))
  {
    var s := stem + "." + ext;
    assert s == stem + ("." + ext);
    BasenameOfName(s);
    LastIndexAt(stem, '.', ext);
    assert s[..|stem|] == stem && s[|stem| + 1..] == ext;
  }

  lemma PartsOfPlain(b: string, f: string, e: string)
    requires b == f + "." + e && Separator !in b
    ensures Separator !in f && Separator !in e
  {
    assert b == f + ("." + e);
  }
}
