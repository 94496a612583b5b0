/**
 * The `UploadHandler` object: its configuration fields, the name of the
 * last stored upload, and the filesystem its methods change. The request,
 * the server settings, the clock and the random draws are parameters.
 */
module Upload {
  import opened Wrappers
  import opened Text
  import opened Paths
  import opened Files
  import opened Validation
  import opened Assembly
  import opened Naming
  import opened Sweep

  /** The array a handler method returns. */
  datatype Response =
    | Failed(error: UploadError, preventRetry: bool)       // `['error' => .., 'preventRetry' => ..]`
    | Done(success: bool, uuid: string, preventRetry: bool) // `['success' => .., 'uuid' => ..]`

  /** `uploadDirectory/uuid/name`: where a whole file or an assembled upload is stored. */
  function TargetPath(uploadDirectory: string, uuid: string, name: string): string {
    Join(Join(uploadDirectory, uuid), name)
  }

  /** How often the loops of `combineChunks` run: `qqtotalparts`, or none when it is negative. */
  function PartCount(req: Request): nat {
    if TotalParts(req) < 0 then 0 else TotalParts(req)
  }

  /** The directories once `combineChunks` has created the target's parent for a target that did not exist. */
  function DirsBeforeOpen(files: map<string, seq<byte>>, dirs: set<string>, target: string): set<string> {
    if PathExists(files.Keys, dirs, target) then dirs else dirs + {Dirname(target)}
  }

  /**
   * `fopen($target, 'wb')` fails, and under PHP 8 the call then ends with a
   * `TypeError`, when the target is a directory: an existing one, a path
   * ending in a separator (an empty name or one ending in `/`), or a path
   * whose last component is `.` or `..`. The move of an uploaded file fails
   * on the same targets.
   */
  function TargetUnopenable(dirs: set<string>, target: string): (r: bool)
    ensures target in dirs || EndsInSeparator(target) || EndsInDotComponent(target) ==> r
  {
    target in dirs || EndsInSeparator(target) || EndsInDotComponent(target)
  }

  /**
   * What `combineChunks` leaves behind once the target is open (`files`,
   * `dirs` are the state at that point): on a missing part, the parts
   * before it copied into the target and nothing else changed; otherwise
   * the target holds every part in index order, the parts are gone, the
   * folder is removed when that left it empty, and an assembled file over
   * `limit` is deleted again, with the 413 answer that forbids a retry.
   */
  ghost predicate AssemblyOutcome(files: map<string, seq<byte>>, dirs: set<string>, folder: string, total: nat,
                                  target: string, limit: Option<int>, uuid: string,
                                  resp: Response, files': map<string, seq<byte>>, dirs': set<string>)
  {
    var missing := FirstMissing(files, folder, 0, total);
    if missing.Some? then
      resp == Failed(AssembleFailed, false) && dirs' == dirs &&
      PartsPresent(files, folder, missing.value) &&
      files' == files[target := Assembled(files, folder, missing.value)]
    else
      PartsPresent(files, folder, total) &&
      var content := Assembled(files, folder, total);
      var rest := files - PartSet(folder, total);
      var tooLarge := limit.Some? && |content| > limit.value;
      resp == (if tooLarge then Done(false, uuid, true) else Done(true, uuid, false)) &&
      files' == (if tooLarge then rest - {target} else rest[target := content]) &&
      dirs' == AfterRmdir(rest[target := content], dirs, folder)
  }

  /**
   * A single-component name stored under `uploadDirectory/uuid` is what
   * `basename` reports back. Its parent is `uploadDirectory/uuid` with
   * trailing separators dropped, which is `uploadDirectory/uuid` itself
   * for a non-empty `uuid` that does not end in a separator.
   */
  lemma TargetPathSplits(uploadDirectory: string, uuid: string, name: string)
    requires name != [] && Separator !in name
    ensures Basename(TargetPath(uploadDirectory, uuid, name)) == name
    ensures var parent := StripTrailingSeparators(Join(uploadDirectory, uuid));
      Dirname(TargetPath(uploadDirectory, uuid, name)) == if parent == [] then [Separator] else parent
    ensures uuid != [] && uuid[|uuid| - 1] != Separator ==>
      Dirname(TargetPath(uploadDirectory, uuid, name)) == Join(uploadDirectory, uuid)
  {
    var dir := Join(uploadDirectory, uuid);
    BasenameOfJoin(dir, name);
    if uuid != [] && uuid[|uuid| - 1] != Separator {
      assert dir[|dir| - 1] == uuid[|uuid| - 1];
      StripNothing(dir);
    }
  }

  /**
   * An empty name makes the target `uploadDirectory/uuid/`, which `fopen`
   * cannot open for writing whether or not `mkdir` ran, so `combineChunks`
   * aborts before copying any part.
   */
  lemma EmptyNameCannotBeOpened(files: map<string, seq<byte>>, dirs: set<string>, uploadDirectory: string, uuid: string)
    ensures var target := TargetPath(uploadDirectory, uuid, "");
      EndsInSeparator(target) && TargetUnopenable(DirsBeforeOpen(files, dirs, target), target)
  {
  }

  /**
   * A name `.` or `..` makes the target `uploadDirectory/uuid/.` or
   * `uploadDirectory/uuid/..`, a directory, which `fopen` cannot open for
   * writing, so `combineChunks` aborts before copying any part.
   */
  lemma DotNameCannotBeOpened(files: map<string, seq<byte>>, dirs: set<string>, uploadDirectory: string, uuid: string,
                              name: string)
    requires IsDot(name)
    ensures var target := TargetPath(uploadDirectory, uuid, name);
      EndsInDotComponent(target) && TargetUnopenable(DirsBeforeOpen(files, dirs, target), target)
  {
    var target := TargetPath(uploadDirectory, uuid, name);
    if name == "." {
      assert target[|target| - 2..] == [Separator, '.'];
    } else {
      assert target[|target| - 3..] == [Separator, '.', '.'];
    }
  }

  /**
   * The name `..` has `pathinfo` filename `.` and no extension, so its first
   * candidate is `uploadDirectory/.`, which `file_exists` reports as the
   * upload directory itself; the search moves on to `uploadDirectory/.-N`.
   */
  lemma DotDotCandidateIsTaken(files: set<string>, dirs: set<string>, dir: string, draws: seq<nat>)
    requires dir in dirs && !EndsInSeparator(dir)
    ensures PathInfoOf("..").filename == "." && Extension("..") == ""
    ensures Candidate(dir, ".", "", 0) == Join(dir, ".") && EndsInDotComponent(Join(dir, "."))
    ensures FileExistsIn(files, dirs)(Join(dir, "."))
    ensures Search(FileExistsIn(files, dirs), dir, ".", "", draws, 0) != Some(Join(dir, "."))
  {
    DotEntryExists(files, dirs, dir);
    PathInfoOfDotDot();
  }

  /**
   * A name whose `pathinfo` parts are both empty (`""` or `.`) gives the
   * candidate `uploadDirectory/`, which `file_exists` reports as the upload
   * directory itself, so the search moves on to `uploadDirectory/-N`.
   */
  lemma NamelessCandidateIsTaken(files: set<string>, dirs: set<string>, dir: string, draws: seq<nat>)
    requires dir in dirs && !EndsInSeparator(dir)
    ensures Candidate(dir, "", "", 0) == Join(dir, "")
    ensures FileExistsIn(files, dirs)(Join(dir, ""))
    ensures Search(FileExistsIn(files, dirs), dir, "", "", draws, 0) != Some(Join(dir, ""))
  {
    var c := Join(dir, "");
    assert c[..|c| - 1] == dir;
    StripNothing(dir);
    assert StripTrailingSeparators(c) == dir;
  }

  /** One `file_exists` test of the probing loop, on the state `occupied` describes. */
  method ProbeExists(fs: FileSystem, ghost occupied: string -> bool, path: string) returns (taken: bool)
    requires forall p {:trigger fs.Exists(p)} :: fs.Exists(p) == occupied(p)
    ensures taken == occupied(path)
  {
    taken := fs.Exists(path);
  }

  /**
   * The probing loop of `getUniqueTargetPath`: add draws to the suffix
   * while `file_exists` reports the candidate. The filesystem does not
   * change while the loop runs (`getUniqueTargetPath` holds a semaphore);
   * `occupied` is `file_exists` on it. The result path is built once the
   * loop ends.
   */
  method FirstFreeCandidate(fs: FileSystem, ghost occupied: string -> bool, dir: string, base: string, ext: string,
                            draws: seq<nat>)
    returns (path: string, free: bool)
    requires forall p {:trigger fs.Exists(p)} :: fs.Exists(p) == occupied(p)
    ensures var found := Search(occupied, dir, base, ext, draws, 0);
      (free <==> found.Some?) && (free ==> found == Some(path))
  {
    var suffix, i, taken := ProbeSuffixes(fs, occupied, dir, base, ext, draws);
    SearchStop(occupied, dir, base, ext, draws, i, suffix);
    free := !taken;
    path := Candidate(dir, base, ext, suffix);
  }

  /** The loop itself: the suffix it stops at, how many draws it used, and whether that candidate exists. */
  method ProbeSuffixes(fs: FileSystem, ghost occupied: string -> bool, dir: string, base: string, ext: string,
                       draws: seq<nat>)
    returns (suffix: nat, i: nat, taken: bool)
    requires forall p {:trigger fs.Exists(p)} :: fs.Exists(p) == occupied(p)
    ensures i <= |draws| && (taken ==> i == |draws|)
    ensures taken == occupied(Candidate(dir, base, ext, suffix))
    ensures Search(occupied, dir, base, ext, draws, 0) == Search(occupied, dir, base, ext, draws[i..], suffix)
  {
    suffix, i := 0, 0;
    assert draws[i..] == draws;
    taken := ProbeExists(fs, occupied, Candidate(dir, base, ext, suffix));
    while taken && i < |draws|
      invariant 0 <= i <= |draws|
      invariant taken == occupied(Candidate(dir, base, ext, suffix))
      invariant Search(occupied, dir, base, ext, draws, 0) == Search(occupied, dir, base, ext, draws[i..], suffix)
      decreases |draws| - i
    {
      SearchStep(occupied, dir, base, ext, draws, i, suffix);
      suffix := suffix + draws[i];
      i := i + 1;
      taken := ProbeExists(fs, occupied, Candidate(dir, base, ext, suffix));
    }
  }

  class UploadHandler {
    var allowedExtensions: seq<string>
    var allowedMimeTypes: seq<string>
    var sizeLimit: Option<int>
    var chunksFolder: string
    var chunksExpireIn: int
    var uploadName: Option<string>
    const fs: FileSystem

    constructor (fs: FileSystem)
      ensures allowedExtensions == [] && allowedMimeTypes == [] && sizeLimit == None
      ensures chunksFolder == "chunks" && chunksExpireIn == 604800 && uploadName == None
      ensures this.fs == fs
    {
      allowedExtensions := [];
      allowedMimeTypes := [];
      sizeLimit := None;
      chunksFolder := "chunks";
      chunksExpireIn := 604800;
      uploadName := None;
      this.fs := fs;
    }

    function Policy(): Policy
      reads this
    {
      Validation.Policy(allowedExtensions, allowedMimeTypes, sizeLimit)
    }

    /**
     * `removeDir`: unlink every listed entry, then `rmdir`. Unlinking a
     * subdirectory fails, so `rmdir` then fails too and the directory stays.
     * The `is_dir($item)` test looks at the bare entry name, which the model
     * takes never to name a directory, so the recursive branch is not taken.
     */
    method RemoveDir(dir: string)
      modifies fs
      ensures fs.files == FilesAfterUnlinkingEntries(old(fs.files), dir)
      ensures fs.dirs == AfterRmdir(fs.files, old(fs.dirs), dir)
    {
      ghost var F0, D0 := fs.files, fs.dirs;
      var listed := Listing(fs.files, fs.dirs, dir);
      var todo := listed;
      ghost var done: set<string> := {};
      while todo != {}
        invariant todo <= listed && done == listed - todo
        invariant fs.files == WithoutEntries(F0, dir, done) && fs.dirs == D0
        decreases |todo|
      {
        var item :| item in todo;
        if !IsDot(item) {
          WithoutOneMoreEntry(F0, dir, done, item);
          var _ := fs.Unlink(Join(dir, item));
        } else {
          WithoutDotEntry(F0, dir, done, item);
        }
        todo := todo - {item};
        done := done + {item};
      }
      WithoutListedEntries(F0, D0, dir);
      var _ := fs.Rmdir(dir);
    }

    /**
     * `cleanupChunks`: every subdirectory of the chunks folder whose age at
     * `now` is strictly above `chunksExpireIn` is passed to `removeDir`.
     * `mtime` gives each directory's modification time.
     */
    method CleanupChunks(now: int, mtime: map<string, int>)
      requires fs.dirs <= mtime.Keys
      modifies fs
      ensures var x := Expiry(chunksFolder, now, chunksExpireIn, mtime);
        var names := Listing(old(fs.files), old(fs.dirs), chunksFolder);
        fs.files == SweptFiles(old(fs.files), old(fs.dirs), x, names) &&
        fs.dirs == SweptDirs(old(fs.files), old(fs.dirs), x, names)
    {
      ghost var F0, D0 := fs.files, fs.dirs;
      var x := Expiry(chunksFolder, now, chunksExpireIn, mtime);
      var names := Listing(fs.files, fs.dirs, chunksFolder);
      var todo := names;
      while todo != {}
        invariant todo <= names
        invariant fs.files == SweptFiles(F0, D0, x, names - todo) && fs.dirs == SweptDirs(F0, D0, x, names - todo)
        decreases |todo|
      {
        var item :| item in todo;
        ghost var done := names - todo;
        if !IsDot(item) {
          var path := Join(chunksFolder, item);
          UnvisitedDirKept(F0, D0, x, done, item);
          if path in fs.dirs && now - mtime[path] > chunksExpireIn {
            ChildOfJoin(chunksFolder, item);
            SweepRemove(F0, D0, x, done, item);
            RemoveDir(path);
          } else {
            SweepSkip(F0, D0, x, done, item);
          }
        } else {
          SweepSkip(F0, D0, x, done, item);
        }
        assert names - (todo - {item}) == done + {item};
        todo := todo - {item};
      }
    }
  
    /**
     * `getUniqueTargetPath`: the first of `base.ext`, `base-N1.ext`,
     * `base-N2.ext`, ... (N the running sum of the draws) that does not
     * exist, created empty by `touch`. No result when `touch` fails, or
     * when the supplied draws run out before a free name turns up.
     */
    method GetUniqueTargetPath(uploadDirectory: string, filename: string, draws: seq<nat>, touchSucceeds: bool)
      returns (result: Option<string>)
      modifies fs
      ensures var found := Search(FileExistsIn(old(fs.files.Keys), old(fs.dirs)), uploadDirectory, PathInfoOf(filename).filename,
                                  Extension(filename), draws, 0);
        result == (if touchSucceeds then found else None)
      ensures fs.files == (if result.Some? then old(fs.files)[result.value := []] else old(fs.files))
      ensures fs.dirs == old(fs.dirs)
    {
      ghost var occupied := FileExistsIn(fs.files.Keys, fs.dirs);
      ghost var found := Search(occupied, uploadDirectory, PathInfoOf(filename).filename, Extension(filename), draws, 0);
      var path, free := FirstFreeCandidate(fs, occupied, uploadDirectory, PathInfoOf(filename).filename,
                                           Extension(filename), draws);
      assert free <==> found.Some?;
      assert free ==> found == Some(path);
      if free && touchSucceeds {
        fs.WriteFile(path, []);
        result := Some(path);
      } else {
        result := None;
      }
    }

    /**
     * The copy loop of `combineChunks`: the target, just truncated, receives
     * parts `0..total-1` in order; a missing part stops the copy there.
     */
    method CopyParts(folder: string, total: nat, target: string) returns (ok: bool)
      requires target !in PartSet(folder, total)
      modifies fs
      ensures ok <==> FirstMissing(old(fs.files), folder, 0, total).None?
      ensures var copied := if ok then total else FirstMissing(old(fs.files), folder, 0, total).value;
        PartsPresent(old(fs.files), folder, copied) &&
        fs.files == old(fs.files)[target := Assembled(old(fs.files), folder, copied)]
      ensures fs.dirs == old(fs.dirs)
    {
      ghost var F0 := fs.files;
      fs.WriteFile(target, []);
      var content: seq<byte> := [];
      var i := 0;
      ok := true;
      while i < total
        invariant 0 <= i <= total && PartsPresent(F0, folder, i)
        invariant content == Assembled(F0, folder, i) && fs.files == F0[target := content]
        invariant fs.dirs == old(fs.dirs)
      {
        var part := PartPath(folder, i);
        assert part in PartSet(folder, total);
        if part !in fs.files {
          ok := false;
          return;
        }
        content := content + fs.files[part];
        fs.WriteFile(target, content);
        i := i + 1;
      }
    }

    /** The unlink loop of `combineChunks`: parts `0..total-1` are deleted. */
    method DeleteParts(folder: string, total: nat)
      modifies fs
      ensures fs.files == old(fs.files) - PartSet(folder, total)
      ensures fs.dirs == old(fs.dirs)
    {
      var i := 0;
      while i < total
        invariant 0 <= i <= total
        invariant fs.files == old(fs.files) - PartSet(folder, i) && fs.dirs == old(fs.dirs)
      {
        assert PartSet(folder, i + 1) == PartSet(folder, i) + {PartPath(folder, i)};
        var _ := fs.Unlink(PartPath(folder, i));
        i := i + 1;
      }
    }

    /**
     * `combineChunks` from the copy loop on, once `target` is open as a
     * regular file: copy the parts, delete them and their folder, then
     * enforce the size limit.
     */
    method AssembleParts(folder: string, total: nat, target: string, uuid: string) returns (resp: Response)
      requires target !in PartSet(folder, total) && target !in fs.dirs
      modifies fs
      ensures AssemblyOutcome(old(fs.files), old(fs.dirs), folder, total, target, sizeLimit, uuid, resp, fs.files, fs.dirs)
    {
      ghost var F0 := fs.files;
      var ok := CopyParts(folder, total, target);
      if !ok {
        resp := Failed(AssembleFailed, false);
        return;
      }
      ghost var content := Assembled(F0, folder, total);
      DeleteParts(folder, total);
      assert fs.files == (F0 - PartSet(folder, total))[target := content];
      var _ := fs.Rmdir(folder);
      if sizeLimit.Some? && |fs.files[target]| > sizeLimit.value {
        var _ := fs.Unlink(target);
        resp := Done(false, uuid, true);
      } else {
        resp := Done(true, uuid, false);
      }
    }

    /**
     * `combineChunks`: truncate the target `uploadDirectory/uuid/name`
     * (creating its parent when the target does not exist), append the
     * parts in index order, delete them and their folder, then drop the
     * result when it exceeds the size limit. Opening a missing part, or a
     * target that cannot be opened as a file (`TargetUnopenable`), aborts
     * the call, as does a request without any name.
     */
    method CombineChunks(uploadDirectory: string, name: Option<string>, req: Request) returns (resp: Response)
      requires var n := EffectiveName(name, req);
        n.Some? ==> TargetPath(uploadDirectory, req.qquuid, n.value) !in PartSet(ChunkFolder(chunksFolder, req.qquuid), PartCount(req))
      modifies this`uploadName, fs
      ensures EffectiveName(name, req).None? ==>
        resp == Failed(AssembleFailed, false) && uploadName == old(uploadName) &&
        fs.files == old(fs.files) && fs.dirs == old(fs.dirs)
      ensures EffectiveName(name, req).Some? ==> uploadName == EffectiveName(name, req)
      ensures EffectiveName(name, req).Some? ==>
        var target := TargetPath(uploadDirectory, req.qquuid, EffectiveName(name, req).value);
        var dirs := DirsBeforeOpen(old(fs.files), old(fs.dirs), target);
        if TargetUnopenable(dirs, target) then
          resp == Failed(AssembleFailed, false) && fs.files == old(fs.files) && fs.dirs == dirs
        else
          AssemblyOutcome(old(fs.files), dirs, ChunkFolder(chunksFolder, req.qquuid), PartCount(req),
                          target, sizeLimit, req.qquuid, resp, fs.files, fs.dirs)
    {
      var n := EffectiveName(name, req);
      if n.None? {
        resp := Failed(AssembleFailed, false);
        return;
      }
      var target := TargetPath(uploadDirectory, req.qquuid, n.value);
      uploadName := n;
      if !fs.Exists(target) {
        fs.Mkdir(Dirname(target));
      }
      if TargetUnopenable(fs.dirs, target) {
        resp := Failed(AssembleFailed, false);
        return;
      }
      resp := AssembleParts(ChunkFolder(chunksFolder, req.qquuid), PartCount(req), target, req.qquuid);
    }

    /** The chunked branch of `handleUpload`: store the part under `chunksFolder/uuid/partIndex`. */
    method SaveChunk(req: Request, content: seq<byte>, env: ServerEnv)
      returns (resp: Response)
      modifies fs
      ensures var folder := ChunkFolder(chunksFolder, req.qquuid);
        if !env.chunksDirWritable && !env.uploadDirExecutable then
          resp == Failed(ChunksDirNotWritable, false) && fs.files == old(fs.files) && fs.dirs == old(fs.dirs)
        else
          resp == Done(env.moveSucceeds, req.qquuid, false) &&
          fs.dirs == (if old(fs.Exists(folder)) then old(fs.dirs) else old(fs.dirs) + {folder}) &&
          fs.files == (if env.moveSucceeds then old(fs.files)[PartPath(folder, PartIndex(req)) := content] else old(fs.files))
    {
      if !env.chunksDirWritable && !env.uploadDirExecutable {
        return Failed(ChunksDirNotWritable, false);
      }
      var folder := ChunkFolder(chunksFolder, req.qquuid);
      if !fs.Exists(folder) {
        fs.Mkdir(folder);
      }
      if env.moveSucceeds {
        fs.WriteFile(PartPath(folder, PartIndex(req)), content);
      }
      resp := Done(env.moveSucceeds, req.qquuid, false);
    }

    /**
     * The whole-file branch of `handleUpload`: store the file under
     * `uploadDirectory/uuid/name`. The move fails on a target that names a
     * directory (`TargetUnopenable`): an existing one, or a name that ends
     * in `/` or is `.` or `..`.
     */
    method SaveWhole(uploadDirectory: string, name: string, req: Request, content: seq<byte>, moveSucceeds: bool)
      returns (resp: Response)
      modifies this`uploadName, fs
      ensures var target := TargetPath(uploadDirectory, req.qquuid, name);
        uploadName == Some(Basename(target)) &&
        fs.dirs == old(fs.dirs) + {Dirname(target)} &&
        if moveSucceeds && !TargetUnopenable(old(fs.dirs) + {Dirname(target)}, target) then
          resp == Done(true, req.qquuid, false) && fs.files == old(fs.files)[target := content]
        else
          resp == Failed(CouldNotSave, false) && fs.files == old(fs.files)
    {
      var target := TargetPath(uploadDirectory, req.qquuid, name);
      uploadName := Some(Basename(target));
      if Dirname(target) !in fs.dirs {
        fs.Mkdir(Dirname(target));
      }
      if moveSucceeds && !TargetUnopenable(fs.dirs, target) {
        fs.WriteFile(target, content);
        resp := Done(true, req.qquuid, false);
      } else {
        resp := Failed(CouldNotSave, false);
      }
    }

    /**
     * `handleUpload` after the garbage-collection draw: the check chain,
     * then the chunked branch when `qqtotalparts > 1`, else the whole-file
     * branch. A rejected request changes nothing.
     */
    method HandleUpload(uploadDirectory: string, name: Option<string>, req: Request, env: ServerEnv)
      returns (resp: Response)
      modifies this`uploadName, fs
      ensures var v := Validate(env, Policy(), req, name);
        v.Reject? ==>
          resp == Failed(v.error, v.preventRetry) && uploadName == old(uploadName) &&
          fs.files == old(fs.files) && fs.dirs == old(fs.dirs)
      ensures Validate(env, Policy(), req, name) == Proceed ==>
        req.file.Some? && EffectiveName(name, req).Some? && EffectiveName(name, req).value != ""
      ensures Validate(env, Policy(), req, name) == Proceed && req.file.Some? && TotalParts(req) > 1 ==>
        var folder := ChunkFolder(chunksFolder, req.qquuid);
        uploadName == old(uploadName) &&
        if !env.chunksDirWritable && !env.uploadDirExecutable then
          resp == Failed(ChunksDirNotWritable, false) && fs.files == old(fs.files) && fs.dirs == old(fs.dirs)
        else
          resp == Done(env.moveSucceeds, req.qquuid, false) &&
          fs.dirs == (if old(fs.Exists(folder)) then old(fs.dirs) else old(fs.dirs) + {folder}) &&
          fs.files == (if env.moveSucceeds then old(fs.files)[PartPath(folder, PartIndex(req)) := req.file.value.content]
                       else old(fs.files))
      ensures Validate(env, Policy(), req, name) == Proceed && req.file.Some? && EffectiveName(name, req).Some? &&
              TotalParts(req) <= 1 ==>
        var target := TargetPath(uploadDirectory, req.qquuid, EffectiveName(name, req).value);
        uploadName == Some(Basename(target)) &&
        fs.dirs == old(fs.dirs) + {Dirname(target)} &&
        if env.moveSucceeds && !TargetUnopenable(old(fs.dirs) + {Dirname(target)}, target) then
          resp == Done(true, req.qquuid, false) && fs.files == old(fs.files)[target := req.file.value.content]
        else
          resp == Failed(CouldNotSave, false) && fs.files == old(fs.files)
    {
      var v := Validate(env, Policy(), req, name);
      if v.Reject? {
        return Failed(v.error, v.preventRetry);
      }
      var file := req.file.value;
      if TotalParts(req) > 1 {
        resp := SaveChunk(req, file.content, env);
      } else {
        resp := SaveWhole(uploadDirectory, EffectiveName(name, req).value, req, file.content, env.moveSucceeds);
      }
    }
  }
}
