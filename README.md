# Upload handler model

A Dafny model of `UploadHandler`, the MediaLibrary upload component of Fork
CMS. It is a PHP implementation of the "traditional server" side of the Fine
Uploader widget. A browser sends one file whole, or sends it as numbered
parts (`qquuid`, `qqtotalparts`, `qqpartindex`, `qqtotalfilesize`,
`qqfilename`), and the handler does the following:

- validates the request against the server's ini limits, the directory
  permissions, the content type, the name, the declared size and the
  extension/MIME allow-lists, where the first failure wins;
- stores a part under `chunksFolder/uuid/partIndex`, or a whole file under
  `uploadDirectory/uuid/name`;
- assembles the parts into the target file in index order, deletes them and
  their folder, then drops the result when it exceeds the size limit;
- finds a free file name `base.ext`, `base-N.ext`, … by adding random draws
  to a suffix, and creates that file (a name ending in `.` has an empty
  extension, so its final `.` is not put back);
- sweeps the chunks folder, removing the part folders older than
  `chunksExpireIn`.

Layout, one module per file:

| file | module | what it holds |
|---|---|---|
| `wrappers.dfy` | `Wrappers` | `Option` |
| `text.dfy` | `Text` | digits, PHP's integer rendering and leading-digit `(int)` cast, ASCII case mapping, `trim` |
| `paths.dfy` | `Paths` | `join` with `/`, `basename`, `dirname`, `pathinfo` |
| `sizes.dfy` | `Sizes` | `toBytes` |
| `files.dfy` | `Files` | the filesystem: a class holding a map from file path to bytes and a set of directory paths; `file_exists` (a path ending in `/`, `/.` or `/..` exists only as the directory it names); one method per PHP call (`unlink`, `rmdir`, `mkdir`, writing a file) |
| `validation.dfy` | `Validation` | the request, the server environment, `getName`, `isWindows`, `isInaccessible` and the check chain of `handleUpload`, as pure functions |
| `assembly.dfy` | `Assembly` | where parts live, and what assembling them means (`Assembled`, `FirstMissing`) |
| `naming.dfy` | `Naming` | the probe sequence of `getUniqueTargetPath` (`Search`) and its properties |
| `sweep.dfy` | `Sweep` | what `removeDir` and `cleanupChunks` leave behind (`FilesAfterUnlinkingEntries`, `SweptFiles`, `SweptDirs`) |
| `handler.dfy` | `Upload` | class `UploadHandler`: its fields and the imperative methods, each proved against the functions above |

The environment is passed in as plain values:

- the `ini_get` settings;
- `PHP_OS`;
- the `is_writable`/`is_executable` flags;
- the outcome of `move_uploaded_file` and of `touch`;
- the clock;
- each directory's `filemtime`;
- the `rand(1, 999)` draws.

The request and the uploaded file are datatypes.

## Model

| member | source | states |
|---|---|---|
| Sizes.ToBytes | src/Backend/Modules/MediaLibrary/Component/UploadHandler.php:340-365 | an empty (or all-whitespace) setting converts to 0 |
| Sizes.ToBytesScales | src/Backend/Modules/MediaLibrary/Component/UploadHandler.php:340-365 | the number read from the trimmed setting (all of it when it ends in a digit, else all but its last character) is multiplied by 1073741824 after `g`/`G`, 1048576 after `m`/`M`, 1024 after `k`/`K`, and left as it is after any other last character |
| Sizes.Scaled | src/Backend/Modules/MediaLibrary/Component/UploadHandler.php:351-362 | exactly one of the three upper-case comparisons can match: `G`, `M` and `K` scale by their factor and any other character leaves the value alone |
| Sizes.ToBytesOfNumber | src/Backend/Modules/MediaLibrary/Component/UploadHandler.php:340-365 | a setting that is a plain decimal number (last character a digit) converts to that number, unscaled |
| Sizes.ToBytesOfNumberWithUnit | src/Backend/Modules/MediaLibrary/Component/UploadHandler.php:342-362 | a number followed by `k`/`K`, `m`/`M`, `g`/`G` is scaled by 1024, 1048576, 1073741824; any other non-digit last character is dropped and the number is read unscaled |
| Sizes.UnitFactor | src/Backend/Modules/MediaLibrary/Component/UploadHandler.php:351-362 | the factor is one of 1, 1024, 1048576, 1073741824, so at most one multiplier applies; it differs from 1 exactly for the six unit letters |
| Text.LeadingStrip | src/Backend/Modules/MediaLibrary/Component/UploadHandler.php:342 | the number of leading characters of the strip set (space, tab, line feed, carriage return, NUL, vertical tab): all of them are in the set, and the next character, if any, is not |
| Text.Trim | src/Backend/Modules/MediaLibrary/Component/UploadHandler.php:342 | `trim` gives the slice of the input that starts right after its leading strip characters and is followed only by strip characters; neither end of the result is a strip character, and the result is empty exactly when every character is one |
| Text.LeadingIntOfDecimal | src/Backend/Modules/MediaLibrary/Component/UploadHandler.php:346-348 | the `(int)` cast reads back a decimal number from a string that continues with a non-digit or ends |
| Text.DecimalStringInjective | src/Backend/Modules/MediaLibrary/Component/UploadHandler.php:272-273 | distinct suffixes render as distinct strings |
| Text.LowerForgetsCase | src/Backend/Modules/MediaLibrary/Component/UploadHandler.php:188-188 | `strtolower` forgets the case a string was written in, and is idempotent |
| Validation.GetName | src/Backend/Modules/MediaLibrary/Component/UploadHandler.php:36-48 | `qqfilename` wins when present; otherwise the uploaded file's client name; there is no name exactly when there is neither |
| Validation.IsWindows | src/Backend/Modules/MediaLibrary/Component/UploadHandler.php:391-395 | the OS name is Windows exactly when it has at least three characters and they read `win` in any mix of cases |
| Validation.IsInaccessible | src/Backend/Modules/MediaLibrary/Component/UploadHandler.php:379-384 | on Windows the directory is inaccessible exactly when it is not writable; elsewhere a writable or executable one is accessible and one that is neither is not |
| Validation.InAllowListIgnoresCase | src/Backend/Modules/MediaLibrary/Component/UploadHandler.php:188-196 | the allow-list test holds exactly when some entry equals the value ignoring case, and upper- or lower-casing the value does not change it |
| Validation.Validate | src/Backend/Modules/MediaLibrary/Component/UploadHandler.php:138-197 | a request that proceeds has an uploaded file and a non-empty effective name |
| Validation.ValidateIsFirstFailure | src/Backend/Modules/MediaLibrary/Component/UploadHandler.php:138-197 | the chain proceeds exactly when no check fails, and rejects with error `e` exactly when check `e` fails and no earlier check does (order: ini limits, directory, content type, multipart, file, name, empty, too large, extension, MIME type) |
| Validation.FirstFailureIsReported | src/Backend/Modules/MediaLibrary/Component/UploadHandler.php:138-197 | the earliest failing check is the one returned, with `preventRetry` set exactly when it is the size limit |
| Validation.RejectionIsFirstFailure | src/Backend/Modules/MediaLibrary/Component/UploadHandler.php:138-197 | a returned error names a check that fails, and every earlier check passes |
| Validation.ProceedPassesEveryCheck | src/Backend/Modules/MediaLibrary/Component/UploadHandler.php:138-197 | a request that gets through fails none of the ten checks |
| Validation.FailingChecksRanked | src/Backend/Modules/MediaLibrary/Component/UploadHandler.php:138-197 | any failing check stops the chain with an error |
| Validation.PreventRetryOnlyForTooLarge | src/Backend/Modules/MediaLibrary/Component/UploadHandler.php:179-181 | only the "too large" rejection forbids a retry, and it happens only with a configured limit |
| Validation.EmptyAllowListsAreSkipped | src/Backend/Modules/MediaLibrary/Component/UploadHandler.php:187-197 | an empty extension (MIME) allow-list never yields the extension (MIME) error |
| Validation.ExtensionCheckIgnoresCase | src/Backend/Modules/MediaLibrary/Component/UploadHandler.php:184-191 | the extension of `stem.ext` is `ext`, and the extension check gives the same answer for `ext` written in upper case |
| Paths.SplitName | src/Backend/Modules/MediaLibrary/Component/UploadHandler.php:184-185 | `pathinfo` splits a basename at its last `.`: no extension when there is no `.`, else filename + `.` + extension with no `.` in the extension |
| Paths.BasenameOfJoin | src/Backend/Modules/MediaLibrary/Component/UploadHandler.php:225-231 | `basename` of `dir/name` is `name`; `dirname` is `dir` without its trailing separators, or `/` when nothing else is left |
| Paths.PathInfoOfStemDotExtension | src/Backend/Modules/MediaLibrary/Component/UploadHandler.php:184-185 | `stem.ext` has filename `stem` and extension `ext` |
| Paths.Basename | src/Backend/Modules/MediaLibrary/Component/UploadHandler.php:228 | `basename`: no separator in the result, which is the last component of the path once trailing separators are stripped |
| Paths.StripTrailingSeparators | src/Backend/Modules/MediaLibrary/Component/UploadHandler.php:230-231 | the path with its trailing separators removed: a prefix of it, followed only by separators, and not itself ending in one |
| Paths.Dirname | src/Backend/Modules/MediaLibrary/Component/UploadHandler.php:230-231 | `dirname`: empty only for the empty path; otherwise `.`, `/`, or a proper prefix of the path that does not end in a separator |
| Paths.DirnameValue | src/Backend/Modules/MediaLibrary/Component/UploadHandler.php:230-231 | the value of `dirname` for a non-empty path, with trailing separators stripped first: `/` when nothing is left; `.` when no separator is left; `/` when only separators come before the basename; otherwise the prefix before the basename with the separators ending it removed |
| Paths.DirnameExamples | src/Backend/Modules/MediaLibrary/Component/UploadHandler.php:94 | `dirname` of `up//n` is `up`, of `up/n/` is `up`, of `/n` and `/` is `/`, of `n` is `.`, of the empty path is empty |
| Paths.PathInfoOf | src/Backend/Modules/MediaLibrary/Component/UploadHandler.php:184-185 | `pathinfo`: filename, then `.` and the extension when there is one, give back the basename; neither part holds a separator and the extension holds no `.`; there is an extension exactly when the basename holds a `.` |
| Paths.SplitNameWithoutDot | src/Backend/Modules/MediaLibrary/Component/UploadHandler.php:261-263 | a name without a `.` has no extension |
| Files.EntryName | src/Backend/Modules/MediaLibrary/Component/UploadHandler.php:297-302 | a listed entry name is non-empty, has no separator, and joined to its directory gives the entry's path |
| Files.AfterRmdir | src/Backend/Modules/MediaLibrary/Component/UploadHandler.php:331-331 | `rmdir` removes at most the one directory, and removes it exactly when it exists and has no entry left |
| Files.PathExists | src/Backend/Modules/MediaLibrary/Component/UploadHandler.php:93 | `file_exists`: a path ending in a separator exists exactly when it names, once stripped, a directory or the root; a path ending in a `.` or `..` component exists exactly when the directory before that component does; any other path exists exactly when it is a file or a directory |
| Files.FileSystem.Exists | src/Backend/Modules/MediaLibrary/Component/UploadHandler.php:215 | `file_exists` on the current state: every stored file or directory is reported unless its path can only name a directory, and a reported path is a stored file or directory or names an existing directory |
| Files.DotParent | src/Backend/Modules/MediaLibrary/Component/UploadHandler.php:90-93 | a path ending in a `.` or `..` component is that component joined to the part before it |
| Files.DotComponentIsBasename | src/Backend/Modules/MediaLibrary/Component/UploadHandler.php:93-96 | for a path ending in a `.` or `..` component, `basename` is that component and `dirname` is the part before it with trailing separators stripped (or `/`) |
| Files.DotBasenameIsDotComponent | src/Backend/Modules/MediaLibrary/Component/UploadHandler.php:93-96 | conversely, a path with a separator, not ending in one, whose `basename` is `.` or `..` ends in such a component |
| Files.DotEntryExists | src/Backend/Modules/MediaLibrary/Component/UploadHandler.php:271 | `d/.` exists exactly when `d` is a directory or the root |
| Files.FileSystem.Unlink | src/Backend/Modules/MediaLibrary/Component/UploadHandler.php:328-328 | the file is gone and nothing else changes; it succeeds exactly when the path was a file |
| Files.FileSystem.Rmdir | src/Backend/Modules/MediaLibrary/Component/UploadHandler.php:111-111 | succeeds exactly on an existing directory with no entries; files unchanged |
| Files.FileSystem.Mkdir | src/Backend/Modules/MediaLibrary/Component/UploadHandler.php:94-94 | the directory exists afterwards; files unchanged |
| Files.FileSystem.WriteFile | src/Backend/Modules/MediaLibrary/Component/UploadHandler.php:233-233 | the path holds the new content; every other file and every directory unchanged |
| Assembly.PartPathInjective | src/Backend/Modules/MediaLibrary/Component/UploadHandler.php:219-219 | distinct part indexes are stored at distinct paths |
| Assembly.FirstMissing | src/Backend/Modules/MediaLibrary/Component/UploadHandler.php:98-102 | the lowest index whose part file is absent, every part before it present; none when all are present |
| Assembly.AssembledPartAt | src/Backend/Modules/MediaLibrary/Component/UploadHandler.php:98-102 | part `i` occurs in the assembled file byte for byte, right after parts `0..i-1` |
| Assembly.AssembledReadsOnlyParts | src/Backend/Modules/MediaLibrary/Component/UploadHandler.php:98-102 | assembling depends on the part files only |
| Assembly.StoringPartsCommutes | src/Backend/Modules/MediaLibrary/Component/UploadHandler.php:213-220 | storing two different parts gives the same files in either order |
| Assembly.StoringPartTwiceKeepsLast | src/Backend/Modules/MediaLibrary/Component/UploadHandler.php:219-220 | a re-sent part overwrites the earlier one |
| Assembly.ThreePartsInAnySubmissionOrder | src/Backend/Modules/MediaLibrary/Component/UploadHandler.php:98-102 | parts sent in the order 2, 0, 1 are assembled in the order 0, 1, 2 |
| Assembly.FolderEmptyAfterPartsDeleted | src/Backend/Modules/MediaLibrary/Component/UploadHandler.php:107-111 | when the parts are the folder's only entries, deleting them leaves it empty, so `rmdir` removes it |
| Naming.Search | src/Backend/Modules/MediaLibrary/Component/UploadHandler.php:271-276 | with `file_exists` as the occupancy test: a first candidate that does not exist is the result, and any result is a candidate that does not exist |
| Naming.Probe | src/Backend/Modules/MediaLibrary/Component/UploadHandler.php:271-273 | after `k` iterations the suffix is at least `k` above where it started |
| Naming.ProbeStep | src/Backend/Modules/MediaLibrary/Component/UploadHandler.php:272-272 | each iteration adds the draw, so the suffix strictly increases |
| Naming.SearchStep | src/Backend/Modules/MediaLibrary/Component/UploadHandler.php:271-274 | a taken candidate moves the search on by the next draw |
| Naming.SearchStop | src/Backend/Modules/MediaLibrary/Component/UploadHandler.php:271-276 | a free candidate is the result; a taken one with no draws left gives none |
| Naming.SearchFindsFirstFree | src/Backend/Modules/MediaLibrary/Component/UploadHandler.php:266-276 | a found path did not exist, and every candidate probed before it did; no result means every candidate reached was taken |
| Naming.CandidateKeepsExtension | src/Backend/Modules/MediaLibrary/Component/UploadHandler.php:261-276 | for a non-empty extension, every candidate lies in the upload directory and splits into `base` or `base-N` plus that extension |
| Naming.CandidateWithoutExtension | src/Backend/Modules/MediaLibrary/Component/UploadHandler.php:264-276 | without an extension no `.` is added: the candidate lies in the directory and has no extension |
| Naming.FirstCandidateIsBasename | src/Backend/Modules/MediaLibrary/Component/UploadHandler.php:261-266 | when the name has a non-empty extension or no `.` at all, the first candidate is the uploaded file's own basename in the upload directory, and base and extension are plain |
| Sweep.Listing | src/Backend/Modules/MediaLibrary/Component/UploadHandler.php:297-297 | `scandir` lists `.`, `..` and the name of every entry; every other listed name is a plain name of an existing entry |
| Sweep.FilesAfterUnlinkingEntries | src/Backend/Modules/MediaLibrary/Component/UploadHandler.php:320-330 | after `removeDir`'s loop exactly the files directly inside the directory are gone; the rest keep their contents |
| Sweep.WithoutOneMoreEntry | src/Backend/Modules/MediaLibrary/Component/UploadHandler.php:328-328 | unlinking one more listed name removes exactly `dir/name` |
| Sweep.SweptFiles | src/Backend/Modules/MediaLibrary/Component/UploadHandler.php:295-312 | the sweep keeps a subset of the files with their contents, and keeps every file that is not directly inside a subdirectory of the chunks folder |
| Sweep.SweptDirs | src/Backend/Modules/MediaLibrary/Component/UploadHandler.php:295-312 | the sweep keeps a subset of the directories, including every directory that is not directly inside the chunks folder |
| Sweep.SweepSkip | src/Backend/Modules/MediaLibrary/Component/UploadHandler.php:298-306 | visiting `.`, `..`, a non-directory or a young directory changes nothing |
| Sweep.SweepRemove | src/Backend/Modules/MediaLibrary/Component/UploadHandler.php:308-310 | visiting an expired directory is one `removeDir` call on the state reached so far |
| Sweep.SweepRemovesExactlyExpired | src/Backend/Modules/MediaLibrary/Component/UploadHandler.php:308-310 | a part folder holding only files is removed exactly when `now - mtime > chunksExpireIn`; one exactly that old stays |
| Sweep.SweepTouchesOnlyExpired | src/Backend/Modules/MediaLibrary/Component/UploadHandler.php:295-332 | files outside expired folders keep their content, files in them are gone, and no other directory disappears |
| Naming.TrailingDotIsDropped | src/Backend/Modules/MediaLibrary/Component/UploadHandler.php:261-276 | a name `stem.` has extension `""`, so its first candidate is `dir/stem`, not its basename `stem.` |
| Naming.TrailingDotLeavesInnerExtension | src/Backend/Modules/MediaLibrary/Component/UploadHandler.php:261-276 | `a.b.` is stored as `a.b`, whose extension then reads as `b` |
| Upload.TargetPathSplits | src/Backend/Modules/MediaLibrary/Component/UploadHandler.php:225-231 | for a plain name, `basename` of `uploadDirectory/uuid/name` is the name; `dirname` is `uploadDirectory/uuid` without trailing separators (or `/`), and exactly `uploadDirectory/uuid` when `uuid` is non-empty and does not end in a separator |
| Upload.FirstFreeCandidate | src/Backend/Modules/MediaLibrary/Component/UploadHandler.php:266-276 | the probing loop followed by `$result`: it finds a free path exactly when the search over the unchanged state does, and returns that path |
| Upload.ProbeSuffixes | src/Backend/Modules/MediaLibrary/Component/UploadHandler.php:271-274 | the `while` loop: it stops on a suffix whose candidate `file_exists` does not report, or once the draws run out, and the search from there gives what the search from suffix 0 gives |
| Upload.ProbeExists | src/Backend/Modules/MediaLibrary/Component/UploadHandler.php:271 | one `file_exists` test of a candidate on the unchanged state |
| Upload.NamelessCandidateIsTaken | src/Backend/Modules/MediaLibrary/Component/UploadHandler.php:261-276 | for a name with empty filename and extension (`""` or `.`) the first candidate is `uploadDirectory/`, which `file_exists` reports as the upload directory, so the search never returns it |
| Upload.TargetUnopenable | src/Backend/Modules/MediaLibrary/Component/UploadHandler.php:96 | `fopen(target, 'wb')` (and the move at :233) fails on any target that names a directory: an existing directory, a path ending in a separator, or one ending in a `.` or `..` component |
| Upload.DotNameCannotBeOpened | src/Backend/Modules/MediaLibrary/Component/UploadHandler.php:90-96 | with the name `.` or `..` the target ends in that component and cannot be opened for writing, whether or not its parent was created |
| Paths.PathInfoOfDotDot | src/Backend/Modules/MediaLibrary/Component/UploadHandler.php:261-263 | `pathinfo("..")` has filename `.` and an empty extension |
| Upload.DotDotCandidateIsTaken | src/Backend/Modules/MediaLibrary/Component/UploadHandler.php:261-276 | the name `..` has filename `.` and no extension, so its first candidate `uploadDirectory/.` is reported by `file_exists` as the upload directory and is never returned |
| Upload.EmptyNameCannotBeOpened | src/Backend/Modules/MediaLibrary/Component/UploadHandler.php:90-96 | with an empty name the target `uploadDirectory/uuid/` ends in a separator and cannot be opened for writing, whether or not its parent was created |
| Upload.UploadHandler.constructor | src/Backend/Modules/MediaLibrary/Component/UploadHandler.php:10-19 | the configuration defaults: no allow-lists, no size limit, folder `chunks`, one week expiry, no upload name |
| Upload.UploadHandler.RemoveDir | src/Backend/Modules/MediaLibrary/Component/UploadHandler.php:318-332 | the directory's files are unlinked, then it is removed when nothing is left in it |
| Upload.UploadHandler.CleanupChunks | src/Backend/Modules/MediaLibrary/Component/UploadHandler.php:295-312 | the filesystem afterwards is the sweep of the listing (`SweptFiles`, `SweptDirs`) |
| Upload.UploadHandler.GetUniqueTargetPath | src/Backend/Modules/MediaLibrary/Component/UploadHandler.php:251-289 | the result is the first candidate `file_exists` does not report (a path ending in `/`, `/.` or `/..` counts as the directory it names), created empty, or nothing when `touch` fails; directories unchanged |
| Upload.UploadHandler.CopyParts | src/Backend/Modules/MediaLibrary/Component/UploadHandler.php:96-105 | the target holds the parts concatenated in index order, up to the first missing one; it succeeds exactly when none is missing |
| Upload.UploadHandler.DeleteParts | src/Backend/Modules/MediaLibrary/Component/UploadHandler.php:107-109 | exactly the part files `0..total-1` are removed |
| Upload.UploadHandler.AssembleParts | src/Backend/Modules/MediaLibrary/Component/UploadHandler.php:98-119 | the copy, delete, `rmdir` and size-limit steps end in `AssemblyOutcome` |
| Upload.UploadHandler.CombineChunks | src/Backend/Modules/MediaLibrary/Component/UploadHandler.php:81-120 | `uploadName` is the effective name. The target's parent is created when the target is absent. The result is the assembled target with parts and folder removed, deleted again with a no-retry failure when over the limit, or the abort cases (no name; a target `fopen` cannot open because it names a directory: an existing one, or a path ending in a separator, `/.` or `/..`; a missing part) |
| Upload.UploadHandler.SaveChunk | src/Backend/Modules/MediaLibrary/Component/UploadHandler.php:199-222 | an unwritable chunks folder fails and changes nothing; otherwise the part folder exists (created when `file_exists` does not report it) and the part is stored at `chunksFolder/uuid/partIndex` when the move succeeds |
| Upload.UploadHandler.SaveWhole | src/Backend/Modules/MediaLibrary/Component/UploadHandler.php:223-240 | `uploadName` is the basename of the target, its parent exists, and the file is stored at `uploadDirectory/uuid/name`, or the save fails, as it does for a target that names a directory (existing, or ending in a separator, `/.` or `/..`) |
| Upload.UploadHandler.HandleUpload | src/Backend/Modules/MediaLibrary/Component/UploadHandler.php:136-241 | a rejected request changes nothing and returns the chain's error; an accepted one has a file and a non-empty name and goes to the chunk branch when `qqtotalparts > 1`, else to the whole-file branch, which stores nothing for a target that names a directory |

## Left out

- The garbage-collection trigger `mt_rand(1, 1 / chunksCleanupProbability)` (UploadHandler.php:131-134) is randomness and float division. `CleanupChunks` is a separate operation, and `HandleUpload` starts after the draw.
- The `sem_get`/`sem_acquire`/`sem_release` lock of `getUniqueTargetPath` is cross-process exclusion. The model is single-threaded.
- `http_response_code(413)` is a transport side effect. Only the returned array is modelled.
- Error messages are reduced to one `UploadError` tag each. This includes the float-formatted `neededRequestSize` text.
- `getInitialFiles` is a development stub returning 5000 dummy entries, and `getUploadName` is a plain getter. Neither is modelled.
- `inputName` is fixed at `qqfile`. The uploaded file under it is the request's `file` field.
- Symfony's `Request` and `UploadedFile` accessors (`getInt`, `getClientSize`, `getMimeType`, `getRealPath`) are read as datatype fields.
- `move_uploaded_file` is a map update plus a success flag.
- `qqtotalfilesize` is taken as an integer. PHP's loose `== 0` and `>` comparisons on a string value are not modelled.
- `in_array`'s loose comparison is modelled as string equality. Numeric-looking strings that PHP would compare as numbers are not modelled.
- Sizes.ToBytes: PHP's `(int)` cast is modelled as the value of the leading decimal digits. Signs, leading whitespace inside the number and exponents are not modelled. Integer overflow to float for huge settings is not modelled either.
- Sizes.ToBytes: an empty setting gives 0. That is what the read at offset -1 followed by `(int) ""` yields.
- A null `sizeLimit` is `None`. The ini-limit check then never fails, because PHP's `int < null` is false.
- Upload.UploadHandler.RemoveDir: `is_dir($item)` tests the bare entry name against the working directory, not `dir/item`. The model takes it as never true. A subdirectory is therefore never recursed into: its `unlink` fails, and so does the final `rmdir`. The working directory is not modelled.
- Upload.UploadHandler.CleanupChunks: requires a modification time for every directory (`filemtime` supplied as a map).
- Upload.UploadHandler.GetUniqueTargetPath: the `rand(1, 999)` draws are a finite sequence. When they run out before a free name turns up, the model returns no result, where the PHP loop would keep drawing.
- Upload.UploadHandler.CombineChunks: requires the target path to differ from every part path. Writing the target over one of its own parts is not modelled.
- Upload.UploadHandler.CombineChunks: PHP 8 semantics are assumed for a missing part or a target that is a directory. `fopen` warns and returns `false`, and the `TypeError` thrown by `stream_copy_to_stream` ends the call; the model returns `Failed(AssembleFailed)` and keeps what was written so far. Under PHP 7 the call only warns: the loop goes on appending the remaining parts, all parts and the folder are deleted, and `success => true` comes back for a file that lacks the missing part. That outcome is not modelled.
- Upload.UploadHandler.CombineChunks: a call without any name is also `Failed(AssembleFailed)`.
- `mkdir` with the recursive flag is assumed to succeed. The missing ancestors it would create are not tracked.
- The truthiness test of the whole-file target (UploadHandler.php:227) always holds for the joined path, so it is not a branch of the model.
- `filesize` after assembly is the length of the assembled content. PHP's stat cache is not modelled.
- Upload.UploadHandler.GetUniqueTargetPath: a name ending in `.` (such as `stem.` or `a.b.`) has an empty extension, so the `.` is not put back and the file is stored as `stem` or `a.b`; in the second case the stored name has extension `b` where the uploaded one had none (`Naming.TrailingDotIsDropped`, `Naming.TrailingDotLeavesInnerExtension`). `Naming.FirstCandidateIsBasename` therefore excludes such names.
- Upload.UploadHandler.SaveWhole, Upload.UploadHandler.SaveChunk and Upload.UploadHandler.CombineChunks: paths are plain strings. A path that can only name a directory (ending in `/`, `/.` or `/..`) is modelled where PHP looks at it: `file_exists`, the target `fopen` of `combineChunks` and the move of the whole-file branch. `.`, `..` and repeated separators inside a path are not resolved, and `mkdir` of a folder ending in `/` records that string as it is. Their "every other file unchanged" holds for the modelled path strings; on a real filesystem it holds only for names and uuids without such segments. A `qqfilename` of `../x.txt`, for instance, makes PHP write outside the uuid folder.
- Upload.UploadHandler.CombineChunks and Upload.UploadHandler.AssembleParts: `rmdir` (UploadHandler.php:111) acts on the path string as it is. With an empty `qquuid` the part folder is `chunks/`; PHP's `rmdir("chunks/")` removes `chunks` once it is empty, whereas the model removes only a directory recorded as `chunks/` and leaves `chunks` in place.
- Paths are modelled for a host whose `DIRECTORY_SEPARATOR` is `/`. On Windows PHP joins with `\` (UploadHandler.php:87, :90, :213, :225, :271) and `basename`, `dirname` and `pathinfo` split at both `\` and `/`; neither is modelled, although the Windows branch of `isInaccessible` is.
