/**
 * What the expiry sweep of `cleanupChunks` and `removeDir` does to the
 * filesystem: every immediate subdirectory of the chunks folder whose age
 * `now - mtime` is strictly above `chunksExpireIn` loses its files and,
 * once empty, is removed itself.
 */
module Sweep {
  import opened Paths
  import opened Files

  /** `scandir(d)`: ".", ".." and the names of the entries of `d`. */
  function Listing(files: map<string, seq<byte>>, dirs: set<string>, d: string): (r: set<string>)
    ensures "." in r && ".." in r
    ensures forall p :: p in files.Keys + dirs && ChildOf(d, p) ==> EntryName(d, p) in r
    ensures forall n :: n in r && !IsDot(n) ==> n != [] && Separator !in n && Join(d, n) in files.Keys + dirs
  {
    {".", ".."} + set p | p in files.Keys + dirs && ChildOf(d, p) :: EntryName(d, p)
  }

  /** The files after `removeDir(dir)` has unlinked every entry it listed (unlink fails on directories). */
  function FilesAfterUnlinkingEntries(files: map<string, seq<byte>>, dir: string): (r: map<string, seq<byte>>)
    ensures r.Keys <= files.Keys
    ensures forall f :: f in files ==> (f in r <==> !(ChildOf(dir, f) && !IsDot(EntryName(dir, f))))
    ensures forall f :: f in r ==> r[f] == files[f]
  {
    map f | f in files && !(ChildOf(dir, f) && !IsDot(EntryName(dir, f))) :: files[f]
  }

  /** The files after unlinking those entries of `dir` whose names are in `names`. */
  function WithoutEntries(files: map<string, seq<byte>>, dir: string, names: set<string>): (r: map<string, seq<byte>>)
    ensures r.Keys <= files.Keys
    ensures forall f :: f in r ==> r[f] == files[f]
  {
    map f | f in files && !(ChildOf(dir, f) && !IsDot(EntryName(dir, f)) && EntryName(dir, f) in names) :: files[f]
  }

  /** Unlinking one more listed name removes exactly the path `dir/name`. */
  lemma WithoutOneMoreEntry(files: map<string, seq<byte>>, dir: string, names: set<string>, n: string)
    requires n != [] && Separator !in n && !IsDot(n)
    ensures WithoutEntries(files, dir, names + {n}) == WithoutEntries(files, dir, names) - {Join(dir, n)}
  {
    ChildOfJoin(dir, n);
  }

  /** Visiting "." or ".." unlinks nothing. */
  lemma WithoutDotEntry(files: map<string, seq<byte>>, dir: string, names: set<string>, n: string)
    requires IsDot(n)
    ensures WithoutEntries(files, dir, names + {n}) == WithoutEntries(files, dir, names)
  {
  }

  /** Once every listed name has been visited, exactly the non-dot entries are gone. */
  lemma WithoutListedEntries(files: map<string, seq<byte>>, dirs: set<string>, dir: string)
    ensures WithoutEntries(files, dir, Listing(files, dirs, dir)) == FilesAfterUnlinkingEntries(files, dir)
  {
  }

  /** The clock, the expiry period, the chunks folder and each directory's modification time. */
  datatype Expiry = Expiry(chunksFolder: string, now: int, expireIn: int, mtime: map<string, int>)

  /** `d` is a subdirectory of the chunks folder, listed among `names`, and strictly older than the expiry. */
  ghost predicate Expired(dirs: set<string>, x: Expiry, names: set<string>, d: string) {
    ChildOf(x.chunksFolder, d) && EntryName(x.chunksFolder, d) in names && !IsDot(EntryName(x.chunksFolder, d)) &&
    d in dirs && d in x.mtime && x.now - x.mtime[d] > x.expireIn
  }

  ghost predicate RemovedFile(dirs: set<string>, x: Expiry, names: set<string>, f: string) {
    exists d :: Expired(dirs, x, names, d) && ChildOf(d, f) && !IsDot(EntryName(d, f))
  }

  ghost predicate HasSubdir(dirs: set<string>, d: string) {
    exists p :: p in dirs && ChildOf(d, p)
  }

  ghost predicate HasDotFile(files: map<string, seq<byte>>, d: string) {
    exists f :: f in files && ChildOf(d, f) && IsDot(EntryName(d, f))
  }

  /** An expired directory is gone afterwards unless something `removeDir` does not unlink is left in it. */
  ghost predicate RemovedDir(files: map<string, seq<byte>>, dirs: set<string>, x: Expiry, names: set<string>, d: string) {
    Expired(dirs, x, names, d) && !HasSubdir(dirs, d) && !HasDotFile(files, d)
  }

  /** The files once the entries `names` of the chunks folder have been visited. */
  ghost function SweptFiles(files: map<string, seq<byte>>, dirs: set<string>, x: Expiry, names: set<string>): (r: map<string, seq<byte>>)
    ensures r.Keys <= files.Keys && forall f :: f in r ==> r[f] == files[f]
    ensures forall f :: f in files && (forall d :: ChildOf(d, f) ==> !ChildOf(x.chunksFolder, d)) ==> f in r
  {
    map f | f in files && !RemovedFile(dirs, x, names, f) :: files[f]
  }

  /** The directories once the entries `names` of the chunks folder have been visited. */
  ghost function SweptDirs(files: map<string, seq<byte>>, dirs: set<string>, x: Expiry, names: set<string>): (r: set<string>)
    ensures r <= dirs
    ensures forall d :: d in dirs && !ChildOf(x.chunksFolder, d) ==> d in r
  {
    set d | d in dirs && !RemovedDir(files, dirs, x, names, d)
  }

  /** Visiting one more name `n` extends the expired set by `chunksFolder/n` at most. */
  lemma ExpiredGrows(dirs: set<string>, x: Expiry, names: set<string>, n: string)
    requires IsDot(n) || (n != [] && Separator !in n)
    ensures forall d :: Expired(dirs, x, names + {n}, d) <==>
      Expired(dirs, x, names, d) || (d == Join(x.chunksFolder, n) && Expired(dirs, x, {n}, d))
  {
    forall d | Expired(dirs, x, names + {n}, d) && EntryName(x.chunksFolder, d) == n
      ensures d == Join(x.chunksFolder, n)
    {
    }
    if !IsDot(n) {
      ChildOfJoin(x.chunksFolder, n);
    }
  }

  /** A name not yet visited still has its directory. */
  lemma UnvisitedDirKept(files: map<string, seq<byte>>, dirs: set<string>, x: Expiry, names: set<string>, n: string)
    requires n !in names && n != [] && Separator !in n
    ensures Join(x.chunksFolder, n) in SweptDirs(files, dirs, x, names) <==> Join(x.chunksFolder, n) in dirs
  {
    ChildOfJoin(x.chunksFolder, n);
  }

  /** Visiting a name whose path is not an expired directory changes nothing. */
  lemma SweepSkip(files: map<string, seq<byte>>, dirs: set<string>, x: Expiry, names: set<string>, n: string)
    requires IsDot(n) || (n != [] && Separator !in n)
    requires IsDot(n) || !Expired(dirs, x, {n}, Join(x.chunksFolder, n))
    ensures SweptFiles(files, dirs, x, names + {n}) == SweptFiles(files, dirs, x, names)
    ensures SweptDirs(files, dirs, x, names + {n}) == SweptDirs(files, dirs, x, names)
  {
    ExpiredGrows(dirs, x, names, n);
    if IsDot(n) {
      forall d ensures !Expired(dirs, x, {n}, d) {
      }
    }
    forall f ensures RemovedFile(dirs, x, names + {n}, f) <==> RemovedFile(dirs, x, names, f) {
      if RemovedFile(dirs, x, names + {n}, f) {
        var d :| Expired(dirs, x, names + {n}, d) && ChildOf(d, f) && !IsDot(EntryName(d, f));
        assert Expired(dirs, x, names, d);
      }
    }
    forall d ensures RemovedDir(files, dirs, x, names + {n}, d) <==> RemovedDir(files, dirs, x, names, d) {
    }
  }

  /** Visiting an expired directory: its listed files go, then `rmdir` succeeds when nothing is left. */
  lemma SweepRemove(files: map<string, seq<byte>>, dirs: set<string>, x: Expiry, names: set<string>, n: string)
    requires n !in names && n != [] && Separator !in n
    requires Expired(dirs, x, {n}, Join(x.chunksFolder, n))
    ensures var path := Join(x.chunksFolder, n);
      var unlinked := FilesAfterUnlinkingEntries(SweptFiles(files, dirs, x, names), path);
      SweptFiles(files, dirs, x, names + {n}) == unlinked &&
      SweptDirs(files, dirs, x, names + {n}) == AfterRmdir(unlinked, SweptDirs(files, dirs, x, names), path)
  {
    var path := Join(x.chunksFolder, n);
    SweepRemoveFiles(files, dirs, x, names, n);
    LeftAfterUnlinking(files, dirs, x, names, n);
    ChildOfJoin(x.chunksFolder, n);
    ExpiredGrows(dirs, x, names, n);
    UnvisitedDirKept(files, dirs, x, names, n);
    var unlinked := FilesAfterUnlinkingEntries(SweptFiles(files, dirs, x, names), path);
    forall d ensures RemovedDir(files, dirs, x, names + {n}, d) <==>
      RemovedDir(files, dirs, x, names, d) || (d == path && !HasSubdir(dirs, path) && !HasDotFile(files, path))
    {
    }
    assert SweptDirs(files, dirs, x, names + {n}) == AfterRmdir(unlinked, SweptDirs(files, dirs, x, names), path);
  }

  /** The files removed once `n` is visited are those removed before plus the non-dot entries of `n`. */
  lemma SweepRemoveFiles(files: map<string, seq<byte>>, dirs: set<string>, x: Expiry, names: set<string>, n: string)
    requires n !in names && n != [] && Separator !in n
    requires Expired(dirs, x, {n}, Join(x.chunksFolder, n))
    ensures SweptFiles(files, dirs, x, names + {n}) ==
      FilesAfterUnlinkingEntries(SweptFiles(files, dirs, x, names), Join(x.chunksFolder, n))
  {
    var path := Join(x.chunksFolder, n);
    ChildOfJoin(x.chunksFolder, n);
    ExpiredGrows(dirs, x, names, n);
    UnvisitedDirKept(files, dirs, x, names, n);
    assert !Expired(dirs, x, names, path);
    forall f | f in files
      ensures RemovedFile(dirs, x, names + {n}, f) <==>
        RemovedFile(dirs, x, names, f) || (ChildOf(path, f) && !IsDot(EntryName(path, f)))
    {
      if RemovedFile(dirs, x, names + {n}, f) {
        var d :| Expired(dirs, x, names + {n}, d) && ChildOf(d, f) && !IsDot(EntryName(d, f));
      }
      if ChildOf(path, f) && !IsDot(EntryName(path, f)) {
        assert Expired(dirs, x, names + {n}, path);
      }
    }
  }

  /**
   * What is left in an expired directory after its files are unlinked is what
   * was there from the start and that `removeDir` does not remove:
   * subdirectories and dot-named files.
   */
  lemma LeftAfterUnlinking(files: map<string, seq<byte>>, dirs: set<string>, x: Expiry, names: set<string>, n: string)
    requires n !in names && n != [] && Separator !in n
    requires Expired(dirs, x, {n}, Join(x.chunksFolder, n))
    ensures var path := Join(x.chunksFolder, n);
      var unlinked := FilesAfterUnlinkingEntries(SweptFiles(files, dirs, x, names), path);
      HasEntry(unlinked, SweptDirs(files, dirs, x, names), path) <==> HasSubdir(dirs, path) || HasDotFile(files, path)
  {
    var path := Join(x.chunksFolder, n);
    ChildOfJoin(x.chunksFolder, n);
    ExpiredGrows(dirs, x, names, n);
    UnvisitedDirKept(files, dirs, x, names, n);
    assert !Expired(dirs, x, names, path);
    var D := SweptDirs(files, dirs, x, names);
    var unlinked := FilesAfterUnlinkingEntries(SweptFiles(files, dirs, x, names), path);
    assert HasEntry(unlinked, D, path) <==> HasSubdir(dirs, path) || HasDotFile(files, path) by {
      if HasEntry(unlinked, D, path) {
        var p :| p in unlinked.Keys + D && ChildOf(path, p);
        if p in unlinked {
          assert p in files && IsDot(EntryName(path, p));
        } else {
          assert p in dirs;
        }
      }
      if HasSubdir(dirs, path) {
        var p :| p in dirs && ChildOf(path, p);
        if !ChildOf(x.chunksFolder, p) {
          assert p in D;
        } else {
          ChildOfUnique(path, x.chunksFolder, p);
        }
        assert p in unlinked.Keys + D;
      }
      if HasDotFile(files, path) {
        var f :| f in files && ChildOf(path, f) && IsDot(EntryName(path, f));
        if RemovedFile(dirs, x, names, f) {
          var d :| Expired(dirs, x, names, d) && ChildOf(d, f) && !IsDot(EntryName(d, f));
          ChildOfUnique(d, path, f);
        }
        assert f in unlinked;
      }
    }
  }

  /**
   * After a full sweep over the listing, a subdirectory of the chunks folder
   * holding only plain files is gone exactly when it is strictly older than
   * the expiry; one exactly as old as the expiry stays.
   */
  lemma SweepRemovesExactlyExpired(files: map<string, seq<byte>>, dirs: set<string>, x: Expiry, d: string)
    requires ChildOf(x.chunksFolder, d) && d in dirs && d in x.mtime && !IsDot(EntryName(x.chunksFolder, d))
    requires !HasSubdir(dirs, d) && !HasDotFile(files, d)
    ensures var names := Listing(files, dirs, x.chunksFolder);
      d !in SweptDirs(files, dirs, x, names) <==> x.now - x.mtime[d] > x.expireIn
  {
    assert EntryName(x.chunksFolder, d) in Listing(files, dirs, x.chunksFolder);
  }

  /**
   * The sweep deletes the plain files inside the expired subdirectories and
   * nothing else: every other file keeps its content, and no directory
   * other than an expired subdirectory of the chunks folder disappears.
   */
  lemma SweepTouchesOnlyExpired(files: map<string, seq<byte>>, dirs: set<string>, x: Expiry)
    ensures var names := Listing(files, dirs, x.chunksFolder);
      var swept := SweptFiles(files, dirs, x, names);
      (forall f :: f in files && (forall d :: ChildOf(d, f) ==> !Expired(dirs, x, names, d)) ==>
         f in swept && swept[f] == files[f]) &&
      (forall d, f :: Expired(dirs, x, names, d) && f in files && ChildOf(d, f) && !IsDot(EntryName(d, f)) ==>
         f !in swept) &&
      (forall d :: d in dirs && !Expired(dirs, x, names, d) ==> d in SweptDirs(files, dirs, x, names))
  {
  }
}
