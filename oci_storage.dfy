/** The storage adapter's five operations, each split into the object it
    addresses (a pure function of the settings and the arguments) and the
    way the operation's promise settles given the object-storage reply. The
    object-storage client itself is outside the model: its reply is a
    parameter. */
module OciStorage {
  import opened Wrappers
  import opened JsString
  import opened Slashes
  import opened PosixPath
  import opened UriComponent
  import opened Configuration

  /** The object a backend call names. */
  datatype ObjectRequest = ObjectRequest(
    bucketName: Option<string>, namespaceName: Option<string>, objectName: string)

  /** How an object-storage call came back: with its value, or with an error
      that carries an HTTP status (none for a network failure). */
  datatype Reply<T> = Done(value: T) | Failed(statusCode: Option<int>)

  /** Why an operation's promise is rejected. */
  datatype Failure =
    | BackendError(statusCode: Option<int>)
    | NotStoredHere(path: string, host: string)
    | MalformedUri

  /** How an operation's promise settles. */
  datatype Settled<T> = Resolved(value: T) | Rejected(reason: Failure)

  type Bytes = seq<bv8>

  const NotFound := 404

  /** The object `key` in the adapter's bucket and namespace. */
  function Target(s: Settings, key: string): ObjectRequest
  {
    ObjectRequest(s.bucket, s.namespace, key)
  }

  /** The key `exists` and `delete` compute from a directory and a file name:
      `stripLeadingSlash(path.join(dir, fileName))`. It never starts with a
      slash, never holds two slashes in a row, and its components are those
      of the directory followed by those of the file name. */
  function ObjectKey(dir: string, fileName: string): (r: string)
    requires NoDotSegments(dir) && NoDotSegments(fileName)
    ensures r == [] || r[0] != '/'
    ensures NoDoubleSlash(r)
    ensures dir + fileName == [] ==> r == "."
    ensures dir + fileName != [] ==>
              NonEmpty(Segments(r)) == NonEmpty(Segments(dir)) + NonEmpty(Segments(fileName))
    ensures var a := dir + fileName;
      a != [] && r != [] ==> (r[|r| - 1] == '/' <==> a[|a| - 1] == '/')
  {
    var joined := Join(dir, fileName);
    assert joined[0] == '/' && |joined| > 1 ==> joined[1] != '/';
    if joined[0] == '/' then
      LeadingSlashSegments(joined);
      StripLeadingSlash(joined)
    else StripLeadingSlash(joined)
  }

  /** A clean relative directory and a clean file name give `dir/fileName`. */
  lemma ObjectKeyClean(dir: string, fileName: string)
    requires IsClean(dir) && IsClean(fileName)
    requires NoDotSegments(dir) && NoDotSegments(fileName)
    ensures ObjectKey(dir, fileName) == dir + "/" + fileName
  {
    JoinClean(dir, fileName);
  }

  // ---- exists(fileName, targetDir)

  /** `exists` asks about the object whose components are the directory's
      followed by the file name's, in the adapter's bucket and namespace. */
  function ExistsRequest(s: Settings, fileName: string, targetDir: string): (r: ObjectRequest)
    requires NoDotSegments(targetDir) && NoDotSegments(fileName)
    ensures r.bucketName == s.bucket && r.namespaceName == s.namespace
    ensures r.objectName == [] || r.objectName[0] != '/'
    ensures NoDoubleSlash(r.objectName)
    ensures targetDir + fileName == [] ==> r.objectName == "."
    ensures targetDir + fileName != [] ==>
              NonEmpty(Segments(r.objectName)) == NonEmpty(Segments(targetDir)) + NonEmpty(Segments(fileName))
    ensures var k, a := r.objectName, targetDir + fileName;
      a != [] && k != [] ==> (k[|k| - 1] == '/' <==> a[|a| - 1] == '/')
  {
    Target(s, ObjectKey(targetDir, fileName))
  }

  /** `exists` resolves to `true` when the head request succeeds, to `false`
      on a 404, and is rejected with the backend's error otherwise. */
  function ExistsOutcome(head: Reply<()>): (r: Settled<bool>)
    ensures r == Settled.Resolved(true) <==> head.Done?
    ensures r == Settled.Resolved(false) <==> head == Failed(Some(NotFound))
    ensures r.Rejected? ==> r.reason == BackendError(head.statusCode)
  {
    match head
    case Done(_) => Resolved(true)
    case Failed(status) => if status == Some(NotFound) then Resolved(false) else Rejected(BackendError(status))
  }

  // ---- save(image, targetDir)

  /** `save` uploads under the file name exactly as the unique-name
      collaborator returned it: no prefix, no slash stripped. */
  function SaveRequest(s: Settings, fileName: string): (r: ObjectRequest)
    ensures r.bucketName == s.bucket && r.namespaceName == s.namespace
    ensures r.objectName == fileName
  {
    Target(s, fileName)
  }

  /** The content type sent with the upload: `image.type || 'application/octet-stream'`. */
  function UploadContentType(imageType: Option<string>): (r: string)
    ensures r != ""
    ensures Truthy(imageType) ==> r == imageType.value
    ensures !Truthy(imageType) ==> r == "application/octet-stream"
  {
    if Truthy(imageType) then imageType.value else "application/octet-stream"
  }

  /** The scheme-relative URL `save` hands back:
      `//{host}/n/{namespace}/b/{bucket}/o/{encodeURIComponent(fileName)}`. */
  function PublicUrl(s: Settings, fileName: string): (r: string)
    requires IsByteString(fileName)
    ensures Contains(r, s.host)
    ensures fileName != [] ==> Basename(r) == Encode(fileName)
  {
    var front := "//" + s.host + "/n/" + Interpolate(s.namespace) + "/b/" + Interpolate(s.bucket) + "/o";
    var r := front + "/" + Encode(fileName);
    assert OccursAt(r, s.host, 2) by {
      assert r == "//" + s.host + (r[2 + |s.host|..]);
    }
    if fileName != [] then
      BasenameAfterSlash(front, Encode(fileName));
      r
    else r
  }

  /** `save` resolves to the public URL once the upload succeeds, and is
      rejected with the upload's error otherwise. */
  function SaveOutcome(s: Settings, fileName: string, put: Reply<()>): (r: Settled<string>)
    requires IsByteString(fileName)
    ensures r.Resolved? <==> put.Done?
    ensures r.Resolved? ==> r.value == PublicUrl(s, fileName)
    ensures r.Rejected? ==> r.reason == BackendError(put.statusCode)
  {
    match put
    case Done(_) => Resolved(PublicUrl(s, fileName))
    case Failed(status) => Rejected(BackendError(status))
  }

  // ---- serve()

  /** The key a request path is served from:
      `stripLeadingSlash(stripEndingSlash(pathPrefix) + req.path)`. Every
      character other than `/` of the prefix and of the path is kept, in
      order, and at most two slashes are dropped. */
  function ServeKey(s: Settings, path: string): (r: string)
    ensures Unslashed(r) == Unslashed(s.pathPrefix) + Unslashed(path)
    ensures |s.pathPrefix| + |path| - 2 <= |r| <= |s.pathPrefix| + |path|
  {
    ServeKeyContent(s.pathPrefix, path);
    StripLeadingSlash(StripEndingSlash(s.pathPrefix) + path)
  }

  lemma ServeKeyContent(prefix: string, path: string)
    ensures Unslashed(StripLeadingSlash(StripEndingSlash(prefix) + path)) == Unslashed(prefix) + Unslashed(path)
  {
    var p := StripEndingSlash(prefix);
    if p != prefix {
      UnslashedDropLast(prefix);
    }
    UnslashedAppend(p, path);
    var k := p + path;
    if k != [] && k[0] == '/' {
      UnslashedDropFirst(k);
    }
  }

  /** `serve` fetches the served key from the adapter's bucket and namespace. */
  function ServeRequest(s: Settings, path: string): (r: ObjectRequest)
    ensures r.bucketName == s.bucket && r.namespaceName == s.namespace
    ensures Unslashed(r.objectName) == Unslashed(s.pathPrefix) + Unslashed(path)
  {
    Target(s, ServeKey(s, path))
  }

  /** Without a prefix, the request path less its leading slash is the key. */
  lemma ServeWithoutPrefix(s: Settings, path: string)
    requires s.pathPrefix == ""
    ensures ServeKey(s, path) == StripLeadingSlash(path)
  {
  }

  /** A one-component prefix is glued to the request path, with or without
      its single trailing slash. */
  lemma ServeWithSimplePrefix(s: Settings, p: string, path: string)
    requires p != [] && p[0] != '/' && '/' !in p
    requires s.pathPrefix == p || s.pathPrefix == p + "/"
    ensures ServeKey(s, path) == p + path
  {
  }

  /** A prefix without a trailing slash, nested or not (the usual
      `content/images`), is glued to the request path unchanged. */
  lemma ServeWithUnterminatedPrefix(s: Settings, path: string)
    requires s.pathPrefix != [] && s.pathPrefix[0] != '/' && s.pathPrefix[|s.pathPrefix| - 1] != '/'
    ensures ServeKey(s, path) == s.pathPrefix + path
  {
    assert (s.pathPrefix + path)[0] == s.pathPrefix[0];
  }

  /** A prefix with an inner slash keeps its trailing slash, so a request
      path such as `/x.png` yields a key with two slashes in a row. */
  lemma ServeWithNestedPrefix(s: Settings, path: string, i: nat)
    requires s.pathPrefix != [] && s.pathPrefix[0] != '/'
    requires i < |s.pathPrefix| - 1 && s.pathPrefix[i] == '/' && s.pathPrefix[|s.pathPrefix| - 1] == '/'
    requires path != [] && path[0] == '/'
    ensures ServeKey(s, path) == s.pathPrefix + path
    ensures !NoDoubleSlash(ServeKey(s, path))
  {
    StripEndingSlashKeepsInnerSlashes(s.pathPrefix, i);
    var k := s.pathPrefix + path;
    assert k[0] == s.pathPrefix[0];
    var j := |s.pathPrefix| - 1;
    assert k[j] == '/' && k[j + 1] == '/';
  }

  // ---- delete(fileName, targetDir)

  /** The directory `delete` joins to: `targetDir || getTargetDir(pathPrefix)`,
      where `defaultDir` is what `getTargetDir` returned. */
  function DeleteDirectory(targetDir: Option<string>, defaultDir: string): (r: string)
    ensures Some(r) == FirstTruthy([targetDir, Some(defaultDir)])
  {
    FirstTruthyOfTwo(targetDir, Some(defaultDir));
    Or(targetDir, Some(defaultDir)).value
  }

  /** `delete` removes the object whose components are the directory's
      followed by the file name's, in the adapter's bucket and namespace. */
  function DeleteRequest(s: Settings, fileName: string, targetDir: Option<string>, defaultDir: string): (r: ObjectRequest)
    requires NoDotSegments(DeleteDirectory(targetDir, defaultDir)) && NoDotSegments(fileName)
    ensures r.bucketName == s.bucket && r.namespaceName == s.namespace
    ensures r.objectName == [] || r.objectName[0] != '/'
    ensures NoDoubleSlash(r.objectName)
    ensures DeleteDirectory(targetDir, defaultDir) + fileName == [] ==> r.objectName == "."
    ensures var dir := DeleteDirectory(targetDir, defaultDir);
      dir + fileName != [] ==>
        NonEmpty(Segments(r.objectName)) == NonEmpty(Segments(dir)) + NonEmpty(Segments(fileName))
    ensures var k, a := r.objectName, DeleteDirectory(targetDir, defaultDir) + fileName;
      a != [] && k != [] ==> (k[|k| - 1] == '/' <==> a[|a| - 1] == '/')
  {
    Target(s, ObjectKey(DeleteDirectory(targetDir, defaultDir), fileName))
  }

  /** `delete` resolves to whether the deletion succeeded and is never rejected. */
  function DeleteOutcome(del: Reply<()>): (r: Settled<bool>)
    ensures r.Resolved?
    ensures r.value <==> del.Done?
  {
    match del
    case Done(_) => Resolved(true)
    case Failed(_) => Resolved(false)
  }

  /** Given the same directory and file name, `exists` and `delete` address
      the same object: both derive the key with `ObjectKey`, so this records
      how the two requests line up rather than a property of either. */
  lemma ExistsAndDeleteAgree(s: Settings, fileName: string, dir: string, defaultDir: string)
    requires dir != [] && NoDotSegments(dir) && NoDotSegments(fileName)
    ensures DeleteRequest(s, fileName, Some(dir), defaultDir) == ExistsRequest(s, fileName, dir)
  {
  }

  // ---- read(options)

  /** `path.replace(/\/$|\\$/, '')`: one trailing `/` or `\` removed. */
  function TrimTrailingSeparator(p: string): (r: string)
    ensures r <= p && |p| - 1 <= |r|
    ensures |r| == |p| - 1 <==> p != [] && (p[|p| - 1] == '/' || p[|p| - 1] == '\\')
  {
    if p != [] && (p[|p| - 1] == '/' || p[|p| - 1] == '\\') then p[..|p| - 1] else p
  }

  /** The object `read` addresses: the URL (empty when no options are given)
      loses one trailing separator, must contain the host, and its last
      component, percent-decoded and without a leading slash, is the key. */
  function ReadRequest(s: Settings, options: Option<string>): (r: Result<ObjectRequest, Failure>)
    ensures var path := TrimTrailingSeparator(if options.Some? then options.value else "");
      r.Err? && r.error.NotStoredHere? <==> !Contains(path, s.host)
    ensures r.Err? ==> r.error.NotStoredHere? || r.error == MalformedUri
    ensures r.Ok? ==> r.value.bucketName == s.bucket && r.value.namespaceName == s.namespace
  {
    var path := TrimTrailingSeparator(if options.Some? then options.value else "");
    if !Contains(path, s.host) then Err(NotStoredHere(path, s.host))
    else
      match Decode(Basename(path))
      case None => Err(MalformedUri)
      case Some(name) => Ok(Target(s, StripLeadingSlash(name)))
  }

  /** `read` resolves to the object's bytes, and is rejected when the URL is
      not this adapter's, is malformed, or the download fails. */
  function ReadOutcome(s: Settings, options: Option<string>, get: Reply<Bytes>): (r: Settled<Bytes>)
    ensures r.Resolved? <==> ReadRequest(s, options).Ok? && get.Done?
    ensures r.Resolved? ==> r.value == get.value
    ensures ReadRequest(s, options).Err? ==> r == Rejected(ReadRequest(s, options).error)
    ensures ReadRequest(s, options).Ok? && get.Failed? ==> r == Rejected(BackendError(get.statusCode))
  {
    match ReadRequest(s, options)
    case Err(e) => Rejected(e)
    case Ok(_) =>
      match get
      case Done(body) => Resolved(body)
      case Failed(status) => Rejected(BackendError(status))
  }

  // ---- properties across operations

  /** The URL `save` returns for a non-empty file name passes `read`'s host
      check, and `read` then addresses that file name less one leading slash. */
  lemma {:induction false} SaveThenRead(s: Settings, fileName: string)
    requires fileName != [] && IsByteString(fileName)
    ensures ReadRequest(s, Some(PublicUrl(s, fileName))) == Ok(Target(s, StripLeadingSlash(fileName)))
  {
    var url := PublicUrl(s, fileName);
    var e := Encode(fileName);
    assert url[|url| - 1] == e[|e| - 1];
    assert TrimTrailingSeparator(url) == url;
    DecodeEncode(fileName);
  }

  /** So `read` fetches the object `save` uploaded exactly when the file name
      does not start with a slash. */
  lemma SaveThenReadSameObject(s: Settings, fileName: string)
    requires fileName != [] && IsByteString(fileName)
    ensures ReadRequest(s, Some(PublicUrl(s, fileName))).Ok?
    ensures ReadRequest(s, Some(PublicUrl(s, fileName))).value == SaveRequest(s, fileName)
        <==> fileName[0] != '/'
  {
    SaveThenRead(s, fileName);
    if fileName[0] == '/' {
      assert |StripLeadingSlash(fileName)| < |fileName|;
    }
  }

  /** Uploading and then reading through the returned URL yields the bytes
      the object store serves for the derived key. */
  lemma SaveThenReadOutcome(s: Settings, fileName: string, body: Bytes)
    requires fileName != [] && IsByteString(fileName)
    ensures SaveOutcome(s, fileName, Done(())).Resolved?
    ensures ReadOutcome(s, Some(SaveOutcome(s, fileName, Done(())).value), Done(body)) == Resolved(body)
  {
    SaveThenRead(s, fileName);
  }

  /** A URL that, once trimmed, ends in a slash-free component and mentions
      the host addresses the decoding of that component. */
  lemma ReadOfAcceptedPath(s: Settings, url: string, dir: string, name: string)
    requires name != [] && '/' !in name
    requires TrimTrailingSeparator(url) == dir + "/" + name
    requires Contains(dir + "/" + name, s.host)
    ensures ReadRequest(s, Some(url))
         == match Decode(name)
            case None => Err(MalformedUri)
            case Some(k) => Ok(Target(s, StripLeadingSlash(k)))
  {
    BasenameAfterSlash(dir, name);
  }

  /** The boundary case: an empty file name gives a URL ending in `/o/`,
      which `read` maps to the object `o`. */
  lemma SaveEmptyNameReadsO(s: Settings)
    ensures ReadRequest(s, Some(PublicUrl(s, ""))) == Ok(Target(s, "o"))
  {
    var dir := "//" + s.host + "/n/" + Interpolate(s.namespace) + "/b/" + Interpolate(s.bucket);
    var path := dir + "/" + "o";
    assert Encode("") == [];
    assert PublicUrl(s, "") == path + "/";
    assert OccursAt(path, s.host, 2) by {
      assert path == "//" + s.host + path[2 + |s.host|..];
    }
    DecodeWithoutEscapes("o");
    ReadOfAcceptedPath(s, path + "/", dir, "o");
  }

  /** A URL that does not mention the host is refused. */
  lemma ReadRejectsForeignUrl(s: Settings, url: string)
    requires !Contains(url, s.host)
    ensures ReadRequest(s, Some(url)) == Err(NotStoredHere(TrimTrailingSeparator(url), s.host))
  {
    ContainsInPrefix(TrimTrailingSeparator(url), url, s.host);
  }
}
