/**
 * What `getUniqueTargetPath` looks for: starting from `base.ext`, the names
 * `base-N.ext` for a running sum N of random draws in [1, 999], until one
 * is free.
 */
module Naming {
  import opened Wrappers
  import opened Text
  import opened Paths

  /** Every `rand(1, 999)` draw lies in its range. */
  predicate ValidDraws(draws: seq<nat>) {
    forall i :: 0 <= i < |draws| ==> 1 <= draws[i] <= 999
  }

  /** `$ext == '' ? $ext : '.' . $ext`. */
  function DotExtension(ext: string): string {
    if ext == "" then "" else "." + ext
  }

  /** `$unique`: the base name alone at first, `base-suffix` once a suffix has been drawn. */
  function Stem(base: string, suffix: nat): string {
    if suffix == 0 then base else base + "-" + DecimalString(suffix)
  }

  /** `uploadDirectory/unique.ext`: the path tried for a given suffix. */
  function Candidate(dir: string, base: string, ext: string, suffix: nat): string {
    Join(dir, Stem(base, suffix) + DotExtension(ext))
  }

  /** The suffix after `k` iterations of the loop that starts at `suffix`. */
  function Probe(suffix: nat, draws: seq<nat>, k: nat): (n: nat)
    requires ValidDraws(draws) && k <= |draws|
    ensures n >= suffix + k
  {
    if k == 0 then suffix else
      assert draws[..k][1..] == draws[1..][..k - 1];
      draws[0] + Probe(suffix, draws[1..], k - 1)
  }

  /** The suffix grows by the draw on every iteration. */
  lemma {:induction false} ProbeStep(suffix: nat, draws: seq<nat>, k: nat)
    requires ValidDraws(draws) && k < |draws|
    ensures Probe(suffix, draws, k + 1) == Probe(suffix, draws, k) + draws[k]
    ensures Probe(suffix, draws, k) < Probe(suffix, draws, k + 1)
  {
    if k > 0 {
      ProbeStep(suffix, draws[1..], k - 1);
    }
  }

  /**
   * The loop of `getUniqueTargetPath` from `suffix` on: stop at the first
   * candidate that does not exist. Here the draws are a finite supply, so
   * the search can also run out (None).
   */
  function Search(occupied: string -> bool, dir: string, base: string, ext: string, draws: seq<nat>, suffix: nat): (r: Option<string>)
    ensures !occupied(Candidate(dir, base, ext, suffix)) ==> r == Some(Candidate(dir, base, ext, suffix))
    ensures r.Some? ==> !occupied(r.value)
    decreases |draws|
  {
    var c := Candidate(dir, base, ext, suffix);
    if !occupied(c) then Some(c)
    else if draws == [] then None
    else Search(occupied, dir, base, ext, draws[1..], suffix + draws[0])
  }

  /** One iteration of the loop: a taken candidate moves the search on by the `i`-th draw. */
  lemma SearchStep(occupied: string -> bool, dir: string, base: string, ext: string, draws: seq<nat>, i: nat, suffix: nat)
    requires i < |draws| && occupied(Candidate(dir, base, ext, suffix))
    ensures Search(occupied, dir, base, ext, draws[i..], suffix) == Search(occupied, dir, base, ext, draws[i + 1..], suffix + draws[i])
  {
    var rest := draws[i..];
    assert rest[0] == draws[i] && rest[1..] == draws[i + 1..];
  }

  /**
   * Leaving the loop after `i` iterations: a free candidate is the result,
   * and a taken one once the draws are used up gives none.
   */
  lemma SearchStop(occupied: string -> bool, dir: string, base: string, ext: string, draws: seq<nat>, i: nat, suffix: nat)
    requires i <= |draws|
    ensures var c := Candidate(dir, base, ext, suffix);
      (!occupied(c) ==> Search(occupied, dir, base, ext, draws[i..], suffix) == Some(c)) &&
      (occupied(c) && i == |draws| ==> Search(occupied, dir, base, ext, draws[i..], suffix) == None)
  {
  }

  /** `p` is the candidate after `k` iterations, and the `k` candidates before it were all taken. */
  ghost predicate FoundAt(occupied: string -> bool, dir: string, base: string, ext: string, draws: seq<nat>, suffix: nat,
                          k: nat, p: string)
    requires ValidDraws(draws)
  {
    k <= |draws| && p == Candidate(dir, base, ext, Probe(suffix, draws, k)) &&
    forall j :: 0 <= j < k ==> occupied(Candidate(dir, base, ext, Probe(suffix, draws, j)))
  }

  /**
   * A found path is the first free candidate in the probe sequence: after
   * some `k` iterations, with every earlier candidate already taken; it is
   * therefore not taken itself. No result means every candidate the draws
   * reach was taken.
   */
  lemma {:induction false} SearchFindsFirstFree(occupied: string -> bool, dir: string, base: string, ext: string,
                                                draws: seq<nat>, suffix: nat)
    requires ValidDraws(draws)
    ensures var r := Search(occupied, dir, base, ext, draws, suffix);
      (r.Some? ==> !occupied(r.value) && exists k: nat :: FoundAt(occupied, dir, base, ext, draws, suffix, k, r.value))
    ensures Search(occupied, dir, base, ext, draws, suffix).None? ==>
      forall j :: 0 <= j <= |draws| ==> occupied(Candidate(dir, base, ext, Probe(suffix, draws, j)))
  {
    var c := Candidate(dir, base, ext, suffix);
    if !occupied(c) {
      assert FoundAt(occupied, dir, base, ext, draws, suffix, 0, c);
    } else if draws != [] {
      var rest := draws[1..];
      var next := suffix + draws[0];
      SearchFindsFirstFree(occupied, dir, base, ext, rest, next);
      var r := Search(occupied, dir, base, ext, rest, next);
      if r.Some? {
        var k: nat :| FoundAt(occupied, dir, base, ext, rest, next, k, r.value);
        FoundAtShift(occupied, dir, base, ext, draws, suffix, k, r.value);
      } else {
        forall j | 0 <= j <= |draws| ensures occupied(Candidate(dir, base, ext, Probe(suffix, draws, j))) {
          if j > 0 {
            ProbeShift(suffix, draws, j - 1);
          }
        }
      }
    }
  }

  lemma FoundAtShift(occupied: string -> bool, dir: string, base: string, ext: string, draws: seq<nat>, suffix: nat,
                     k: nat, p: string)
    requires ValidDraws(draws) && draws != []
    requires occupied(Candidate(dir, base, ext, suffix))
    requires FoundAt(occupied, dir, base, ext, draws[1..], suffix + draws[0], k, p)
    ensures FoundAt(occupied, dir, base, ext, draws, suffix, k + 1, p)
  {
    ProbeShift(suffix, draws, k);
    forall j | 0 <= j < k + 1 ensures occupied(Candidate(dir, base, ext, Probe(suffix, draws, j))) {
      if j > 0 {
        ProbeShift(suffix, draws, j - 1);
      }
    }
  }

  lemma ProbeShift(suffix: nat, draws: seq<nat>, j: nat)
    requires ValidDraws(draws) && draws != [] && j < |draws|
    ensures Probe(suffix, draws, j + 1) == Probe(suffix + draws[0], draws[1..], j)
  {
    if j > 0 {
      ProbeShift(suffix, draws, j - 1);
      ProbeStep(suffix, draws, j);
      ProbeStep(suffix + draws[0], draws[1..], j - 1);
    }
  }

  /**
   * Every candidate lies in the directory and, when the file has an
   * extension, keeps it: `base-N.ext` splits into filename `base-N` and
   * extension `ext`.
   */
  lemma CandidateKeepsExtension(dir: string, base: string, ext: string, n: nat)
    requires Separator !in base && Separator !in ext && '.' !in ext && ext != ""
    ensures var c := Candidate(dir, base, ext, n);
      c[..|dir| + 1] == dir + [Separator] &&
      PathInfoOf(c) == PathInfo(Stem(base, n), Some(ext))
  {
    var stem := Stem(base, n);
    StemHasNoSeparator(base, n);
    var c := Join(dir, stem + "." + ext);
    assert Candidate(dir, base, ext, n) == c;
    assert c[..|dir| + 1] == dir + [Separator];
    PathInfoOfJoinedName(dir, stem, ext);
  }

  /** A name without an extension gets none: no '.' is put after `base` or `base-N`. */
  lemma CandidateWithoutExtension(dir: string, base: string, n: nat)
    requires base != [] && Separator !in base && '.' !in base
    ensures var c := Candidate(dir, base, "", n);
      c[..|dir| + 1] == dir + [Separator] &&
      PathInfoOf(c) == PathInfo(Stem(base, n), None)
  {
    var stem := Stem(base, n);
    StemHasNoSeparator(base, n);
    if n > 0 {
      var d := DecimalString(n);
      assert '.' !in d;
      assert stem == base + ("-" + d);
    }
    assert '.' !in stem;
    var c := Join(dir, stem);
    assert Candidate(dir, base, "", n) == c;
    assert c[..|dir| + 1] == dir + [Separator];
    BasenameOfJoin(dir, stem);
    SplitNameWithoutDot(stem);
  }

  /**
   * The split `pathinfo` makes of a file name meets the conditions above,
   * and suffix 0 gives its own basename back, unless the name ends in '.'
   * (see `TrailingDotIsDropped`).
   */
  lemma FirstCandidateIsBasename(dir: string, filename: string)
    requires Extension(filename) != "" || '.' !in Basename(filename)
    ensures var base, ext := PathInfoOf(filename).filename, Extension(filename);
      Separator !in base && Separator !in ext && '.' !in ext &&
      Candidate(dir, base, ext, 0) == Join(dir, Basename(filename))
  {
    var info := PathInfoOf(filename);
    var b := Basename(filename);
    var f := info.filename;
    FirstCandidateName(dir, f, Extension(filename));
    if info.extension.Some? {
      var e := info.extension.value;
      DotAfterFilename(f, e);
      assert e != "";
    }
  }

  lemma FirstCandidateName(dir: string, base: string, ext: string)
    ensures Candidate(dir, base, ext, 0) == Join(dir, base + DotExtension(ext))
  {
  }

  lemma DotAfterFilename(f: string, e: string)
    ensures '.' in f + "." + e && f + "." + e == f + ("." + e)
  {
    assert (f + "." + e)[|f|] == '.';
  }

  /**
   * A name ending in '.' reports an empty extension, so the dot is not put
   * back: `stem.` is stored as `stem` (see `TrailingDotLeavesInnerExtension`
   * for what `a.b.` becomes).
   */
  lemma TrailingDotIsDropped(dir: string, stem: string)
    requires Separator !in stem
    ensures PathInfoOf(stem + ".") == PathInfo(stem, Some(""))
    ensures Candidate(dir, PathInfoOf(stem + ".").filename, Extension(stem + "."), 0) == Join(dir, stem)
    ensures Join(dir, stem) != Join(dir, Basename(stem + "."))
  {
    PathInfoOfStemDotExtension(stem, "");
    assert stem + "." + "" == stem + ".";
    FirstCandidateName(dir, stem, "");
    assert stem + DotExtension("") == stem;
    assert |Join(dir, stem)| != |Join(dir, stem + ".")|;
  }

  /** `a.b.` is stored as `a.b`, whose extension then reads as `b` where it was empty. */
  lemma TrailingDotLeavesInnerExtension(dir: string)
    ensures PathInfoOf("a.b.") == PathInfo("a.b", Some(""))
    ensures Candidate(dir, "a.b", "", 0) == Join(dir, "a.b")
    ensures PathInfoOf(Join(dir, "a.b")) == PathInfo("a", Some("b"))
  {
    PathInfoOfStemDotExtension("a.b", "");
    assert "a.b" + "." + "" == "a.b.";
    FirstCandidateName(dir, "a.b", "");
    assert "a.b" + DotExtension("") == "a.b";
    assert "a" + "." + "b" == "a.b";
    PathInfoOfJoinedName(dir, "a", "b");
  }

  lemma StemHasNoSeparator(base: string, n: nat)
    requires Separator !in base
    ensures Separator !in Stem(base, n)
  {
    if n > 0 {
      var d := DecimalString(n);
      assert Separator !in d;
      assert Stem(base, n) == base + ("-" + d);
    }
  }

  /** `dir/stem.ext` has extension `ext` and filename `stem`. */
  lemma PathInfoOfJoinedName(dir: string, stem: string, ext: string)
    requires Separator !in stem && Separator !in ext && '.' !in ext
    ensures PathInfoOf(Join(dir, stem + "." + ext)) == PathInfo(stem, Some(ext))
  {
    var name := stem + "." + ext;
    assert name == stem + ("." + ext);
    BasenameOfJoin(dir, name);
    BasenameOfName(name);
    PathInfoOfStemDotExtension(stem, ext);
  }
}
