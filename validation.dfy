/**
 * The checks `handleUpload` runs before storing anything, and the request
 * and environment they read. Everything the handler asks of the request
 * object, of `ini_get`, of `PHP_OS` and of `is_writable`/`is_executable` is
 * a plain value here.
 */
module Validation {
  import opened Wrappers
  import opened Text
  import opened Paths
  import opened Sizes
  import opened Files

  /** The `UploadedFile` under the configured input name. */
  datatype UploadedFile = UploadedFile(
    clientOriginalName: string,
    clientSize: int,
    mimeType: string,        // what `getMimeType()` detects
    content: seq<byte>)      // the temporary file `move_uploaded_file` moves

  /** The request fields of the Fine Uploader "traditional server" protocol. */
  datatype Request = Request(
    httpContentType: Option<string>,  // server `HTTP_CONTENT_TYPE`
    contentType: Option<string>,      // server `CONTENT_TYPE`, its fallback
    file: Option<UploadedFile>,
    qqfilename: Option<string>,
    qquuid: string,
    qqtotalparts: Option<int>,
    qqpartindex: Option<int>,
    qqtotalfilesize: Option<int>)

  /**
   * What the handler learns from the server: ini settings, OS name,
   * permissions, and whether `move_uploaded_file` can move the temporary
   * file (a target that names a directory makes the move fail in any case).
   */
  datatype ServerEnv = ServerEnv(
    postMaxSize: string,
    uploadMaxFilesize: string,
    os: string,
    uploadDirWritable: bool,
    uploadDirExecutable: bool,
    chunksDirWritable: bool,
    moveSucceeds: bool)

  /** The handler's public configuration the checks use. */
  datatype Policy = Policy(allowedExtensions: seq<string>, allowedMimeTypes: seq<string>, sizeLimit: Option<int>)

  /** One tag per error message the handler can return. */
  datatype UploadError =
    | ServerMisconfigured     // "Increase post_max_size and upload_max_filesize"
    | DirectoryInaccessible   // "Uploads directory isn't writable"
    | NoFilesUploaded         // no content type at all
    | NotMultipart
    | UnknownUploadError      // no uploaded file under the input name
    | EmptyName
    | EmptyFile
    | TooLarge
    | InvalidExtension
    | InvalidMimeType
    | ChunksDirNotWritable
    | CouldNotSave
    | AssembleFailed          // a part or the target could not be opened while combining

  /** Outcome of the check chain: go on to store the upload, or the first failure. */
  datatype Verdict = Proceed | Reject(error: UploadError, preventRetry: bool)

  /** `getInt('qqtotalparts', 1)`. */
  function TotalParts(req: Request): int {
    req.qqtotalparts.GetOr(1)
  }

  /** `getInt('qqpartindex')`, 0 when absent. */
  function PartIndex(req: Request): int {
    req.qqpartindex.GetOr(0)
  }

  /** `get('qqtotalfilesize', $file->getClientSize())`. */
  function DeclaredSize(req: Request, file: UploadedFile): int {
    req.qqtotalfilesize.GetOr(file.clientSize)
  }

  /** The content type header, `HTTP_CONTENT_TYPE` first. */
  function ContentType(req: Request): Option<string> {
    if req.httpContentType.Some? then req.httpContentType else req.contentType
  }

  /** `getName`: the `qqfilename` field, else the client's original file name, else nothing. */
  function GetName(req: Request): (r: Option<string>)
    ensures req.qqfilename.Some? ==> r == req.qqfilename
    ensures req.qqfilename.None? && req.file.Some? ==> r == Some(req.file.value.clientOriginalName)
    ensures r.None? <==> req.qqfilename.None? && req.file.None?
  {
    if req.qqfilename.Some? then req.qqfilename
    else if req.file.Some? then Some(req.file.value.clientOriginalName)
    else None
  }

  /** The name the handler uses: the caller's override, else `getName`. */
  function EffectiveName(name: Option<string>, req: Request): Option<string> {
    if name.Some? then name else GetName(req)
  }

  /** `isWindows`: the first three letters of the OS name, upper-cased, are "WIN". */
  function IsWindows(os: string): (r: bool)
    ensures r <==> |os| >= 3 && LowerChar(os[0]) == 'w' && LowerChar(os[1]) == 'i' && LowerChar(os[2]) == 'n'
  {
    Upper(os[..if |os| < 3 then |os| else 3]) == "WIN"
  }

  /** `isInaccessible`: on Windows only writability counts; elsewhere writable or executable suffices. */
  function IsInaccessible(isWindows: bool, writable: bool, executable: bool): (r: bool)
    ensures writable ==> !r
    ensures !writable && !executable ==> r
    ensures executable && !isWindows ==> !r
    ensures isWindows ==> (r <==> !writable)
  {
    if isWindows then !writable else !writable && !executable
  }

  /** `in_array(strtolower($x), array_map("strtolower", $list))`. */
  function InAllowList(x: string, list: seq<string>): bool {
    Lower(x) in seq(|list|, i requires 0 <= i < |list| => Lower(list[i]))
  }

  /** The allow-list test ignores case on both sides. */
  lemma InAllowListIgnoresCase(x: string, list: seq<string>)
    ensures InAllowList(x, list) <==> exists a :: a in list && Lower(a) == Lower(x)
    ensures InAllowList(Upper(x), list) == InAllowList(x, list)
    ensures InAllowList(Lower(x), list) == InAllowList(x, list)
  {
    LowerForgetsCase(x);
    var lowered := seq(|list|, i requires 0 <= i < |list| => Lower(list[i]));
    if InAllowList(x, list) {
      var k :| 0 <= k < |list| && lowered[k] == Lower(x);
      assert list[k] in list;
    }
    if exists a :: a in list && Lower(a) == Lower(x) {
      var a :| a in list && Lower(a) == Lower(x);
      var k :| 0 <= k < |list| && list[k] == a;
      assert lowered[k] == Lower(x);
    }
  }

  /** Check 1: a configured size limit above what `post_max_size` or `upload_max_filesize` allows. */
  predicate ServerLimitsTooLow(env: ServerEnv, policy: Policy)
  {
    policy.sizeLimit.Some? &&
    (ToBytes(env.postMaxSize) < policy.sizeLimit.value || ToBytes(env.uploadMaxFilesize) < policy.sizeLimit.value)
  }

  /** Check 3b: a content type that does not start with "multipart/", in any case. */
  predicate NotMultipartType(contentType: string) {
    !StartsWith(Lower(contentType), "multipart/")
  }

  /** Check 5: no name, or an empty one. */
  predicate NameMissing(name: Option<string>) {
    name.None? || name.value == ""
  }

  /** Check 7: a declared size above the configured limit. */
  predicate OverSizeLimit(size: int, policy: Policy) {
    policy.sizeLimit.Some? && size > policy.sizeLimit.value
  }

  /** Check 8: a non-empty extension allow-list that does not hold the name's extension. */
  predicate ExtensionRefused(name: string, policy: Policy) {
    |policy.allowedExtensions| > 0 && !InAllowList(Extension(name), policy.allowedExtensions)
  }

  /** Check 9: a non-empty MIME allow-list that does not hold the detected type. */
  predicate MimeTypeRefused(mimeType: string, policy: Policy) {
    |policy.allowedMimeTypes| > 0 && !InAllowList(mimeType, policy.allowedMimeTypes)
  }

  /**
   * The check chain of `handleUpload`, first failure wins:
   * server limits, directory access, content type, file present, name,
   * empty size, size limit, extension, MIME type.
   */
  function Validate(env: ServerEnv, policy: Policy, req: Request, name: Option<string>): (v: Verdict)
    ensures v == Proceed ==> req.file.Some? && EffectiveName(name, req).Some? && EffectiveName(name, req).value != ""
  {
    if ServerLimitsTooLow(env, policy) then
      Reject(ServerMisconfigured, false)
    else if IsInaccessible(IsWindows(env.os), env.uploadDirWritable, env.uploadDirExecutable) then
      Reject(DirectoryInaccessible, false)
    else if ContentType(req).None? then
      Reject(NoFilesUploaded, false)
    else if NotMultipartType(ContentType(req).value) then
      Reject(NotMultipart, false)
    else if req.file.None? then
      Reject(UnknownUploadError, false)
    else
      var file := req.file.value;
      var size := DeclaredSize(req, file);
      var n := EffectiveName(name, req);
      if NameMissing(n) then
        Reject(EmptyName, false)
      else if size == 0 then
        Reject(EmptyFile, false)
      else if OverSizeLimit(size, policy) then
        Reject(TooLarge, true)
      else if ExtensionRefused(n.value, policy) then
        Reject(InvalidExtension, false)
      else if MimeTypeRefused(file.mimeType, policy) then
        Reject(InvalidMimeType, false)
      else
        Proceed
  }

  /** The position of each check in the chain. */
  function Rank(e: UploadError): nat {
    match e
    case ServerMisconfigured => 1
    case DirectoryInaccessible => 2
    case NoFilesUploaded => 3
    case NotMultipart => 4
    case UnknownUploadError => 5
    case EmptyName => 6
    case EmptyFile => 7
    case TooLarge => 8
    case InvalidExtension => 9
    case InvalidMimeType => 10
    case _ => 0
  }

  /** Each check on its own: does the request fail the condition the error `e` reports? */
  ghost predicate Fails(e: UploadError, env: ServerEnv, policy: Policy, req: Request, name: Option<string>)
  {
    match e
    case ServerMisconfigured => ServerLimitsTooLow(env, policy)
    case DirectoryInaccessible =>
      !env.uploadDirWritable && (IsWindows(env.os) || !env.uploadDirExecutable)
    case NoFilesUploaded => req.httpContentType.None? && req.contentType.None?
    case NotMultipart => exists t :: ContentType(req) == Some(t) && NotMultipartType(t)
    case UnknownUploadError => req.file.None?
    case EmptyName => req.file.Some? && NameMissing(EffectiveName(name, req))
    case EmptyFile => req.file.Some? && DeclaredSize(req, req.file.value) == 0
    case TooLarge => req.file.Some? && OverSizeLimit(DeclaredSize(req, req.file.value), policy)
    case InvalidExtension =>
      req.file.Some? && EffectiveName(name, req).Some? && ExtensionRefused(EffectiveName(name, req).value, policy)
    case InvalidMimeType => req.file.Some? && MimeTypeRefused(req.file.value.mimeType, policy)
    case _ => false
  }

  /**
   * The chain returns exactly the lowest-ranked failing check, and proceeds
   * exactly when no check fails.
   */
  lemma ValidateIsFirstFailure(env: ServerEnv, policy: Policy, req: Request, name: Option<string>)
    ensures Validate(env, policy, req, name) == Proceed <==> forall e :: !Fails(e, env, policy, req, name)
    ensures forall e ::
      (exists r :: Validate(env, policy, req, name) == Reject(e, r)) <==>
      (Fails(e, env, policy, req, name) && forall e' :: Rank(e') < Rank(e) ==> !Fails(e', env, policy, req, name))
  {
    var v := Validate(env, policy, req, name);
    forall e
      ensures (exists r :: v == Reject(e, r)) <==>
        (Fails(e, env, policy, req, name) && forall e' :: Rank(e') < Rank(e) ==> !Fails(e', env, policy, req, name))
    {
      if Fails(e, env, policy, req, name) && forall e' :: Rank(e') < Rank(e) ==> !Fails(e', env, policy, req, name) {
        FirstFailureIsReported(e, env, policy, req, name);
      }
      if v.Reject? && v.error == e {
        RejectionIsFirstFailure(env, policy, req, name);
      }
    }
    if v == Proceed {
      ProceedPassesEveryCheck(env, policy, req, name);
    } else {
      RejectionIsFirstFailure(env, policy, req, name);
    }
  }

  lemma ProceedPassesEveryCheck(env: ServerEnv, policy: Policy, req: Request, name: Option<string>)
    requires Validate(env, policy, req, name) == Proceed
    ensures forall e :: !Fails(e, env, policy, req, name)
  {
    forall e ensures !Fails(e, env, policy, req, name) {
      if Fails(e, env, policy, req, name) {
        FailingChecksRanked(e, env, policy, req, name);
      }
    }
  }

  /** The lowest-ranked failing check is the one reported, with `preventRetry` set only for the size limit. */
  lemma FirstFailureIsReported(e: UploadError, env: ServerEnv, policy: Policy, req: Request, name: Option<string>)
    requires Fails(e, env, policy, req, name)
    requires forall e' :: Rank(e') < Rank(e) ==> !Fails(e', env, policy, req, name)
    ensures Validate(env, policy, req, name) == Reject(e, e == TooLarge)
  {
    var v := Validate(env, policy, req, name);
    FailingChecksRanked(e, env, policy, req, name);
    RejectionIsFirstFailure(env, policy, req, name);
    FailingChecksRanked(v.error, env, policy, req, name);
    assert Rank(v.error) == Rank(e);
  }

  /** A rejection names a check that fails, and no earlier check fails. */
  lemma RejectionIsFirstFailure(env: ServerEnv, policy: Policy, req: Request, name: Option<string>)
    requires Validate(env, policy, req, name).Reject?
    ensures var e := Validate(env, policy, req, name).error;
      Fails(e, env, policy, req, name) && forall e' :: Rank(e') < Rank(e) ==> !Fails(e', env, policy, req, name)
  {
    var v := Validate(env, policy, req, name);
    var ct := ContentType(req);
    if v.error == NotMultipart {
      assert ContentType(req) == Some(ct.value) && NotMultipartType(ct.value);
    }
    forall e' | Rank(e') < Rank(v.error) ensures !Fails(e', env, policy, req, name) {
      if e'.NotMultipart? {
        assert ct.Some? ==> !NotMultipartType(ct.value);
      }
    }
  }

  /** Every failing check has a rank among 1..10, and a failing check stops the chain at or before it. */
  lemma FailingChecksRanked(e: UploadError, env: ServerEnv, policy: Policy, req: Request, name: Option<string>)
    requires Fails(e, env, policy, req, name)
    ensures 1 <= Rank(e) <= 10
    ensures Validate(env, policy, req, name).Reject?
  {
  }

  /** Only the size-limit failure asks the client not to retry, and it needs a configured limit. */
  lemma PreventRetryOnlyForTooLarge(env: ServerEnv, policy: Policy, req: Request, name: Option<string>)
    ensures var v := Validate(env, policy, req, name);
      v.Reject? ==> (v.preventRetry <==> v.error == TooLarge) && (v.error == TooLarge ==> policy.sizeLimit.Some?)
  {
    var v := Validate(env, policy, req, name);
    if !ServerLimitsTooLow(env, policy) && !IsInaccessible(IsWindows(env.os), env.uploadDirWritable, env.uploadDirExecutable)
       && ContentType(req).Some? && !NotMultipartType(ContentType(req).value) && req.file.Some? {
      var size := DeclaredSize(req, req.file.value);
      if !NameMissing(EffectiveName(name, req)) && size != 0 && OverSizeLimit(size, policy) {
        assert v == Reject(TooLarge, true);
      }
    }
  }

  /** An empty allow-list switches its check off entirely. */
  lemma EmptyAllowListsAreSkipped(env: ServerEnv, policy: Policy, req: Request, name: Option<string>)
    ensures policy.allowedExtensions == [] ==> forall r :: Validate(env, policy, req, name) != Reject(InvalidExtension, r)
    ensures policy.allowedMimeTypes == [] ==> forall r :: Validate(env, policy, req, name) != Reject(InvalidMimeType, r)
  {
    if Validate(env, policy, req, name).Reject? {
      RejectionIsFirstFailure(env, policy, req, name);
    }
  }

  /** The extension check does not depend on the case in which the extension is written. */
  lemma ExtensionCheckIgnoresCase(policy: Policy, stem: string, ext: string)
    requires Separator !in stem && Separator !in ext && '.' !in ext
    ensures Extension(stem + "." + ext) == ext
    ensures ExtensionRefused(stem + "." + ext, policy) == ExtensionRefused(stem + "." + Upper(ext), policy)
  {
    PathInfoOfStemDotExtension(stem, ext);
    UpperKeepsAbsentSymbol(ext, Separator);
    UpperKeepsAbsentSymbol(ext, '.');
    PathInfoOfStemDotExtension(stem, Upper(ext));
    InAllowListIgnoresCase(ext, policy.allowedExtensions);
  }
}
