# OCI object-storage adapter for Ghost: a Dafny model of its key and URL logic

The adapter `OciStorage` (in `OciStorage.js`) lets the Ghost CMS keep its images in an
Oracle Cloud Infrastructure Object Storage bucket. It offers Ghost's storage contract:
`exists`, `save`, `serve`, `delete` and `read`. Apart from calls into the OCI SDK, the
filesystem and Express, the class does five deterministic things. This project models
all five as pure Dafny functions and proves properties about them:

1. **Slash helpers** (`Slashes`). `stripLeadingSlash` drops one leading `/`.
   `stripEndingSlash` trims the last character only when the *first* `/` of the
   string is its last character. So `"a/b/"` stays as it is, and `""` maps to `""`.
2. **Settings resolution** (`Configuration`). Each field is the
   `GHOST_STORAGE_ADAPTER_OCI_*` environment variable, else the constructor's
   configuration field, else a default. The fields are combined with JavaScript's `||`,
   so an empty string counts as absent. The default host is derived as
   `{namespace}.objectstorage.{region}.oci.customer-oci.com`. One leading slash is
   removed from the path prefix.
3. **Object keys** (`OciStorage`, `PosixPath`).
   - `exists` and `delete` use `stripLeadingSlash(path.join(dir, fileName))`.
   - `serve` uses `stripLeadingSlash(stripEndingSlash(pathPrefix) + req.path)`.
   - `save` uploads under the file name it is given.
   - `read` takes the object key from the URL it is handed.
4. **URL codec** (`UriComponent`, `OciStorage`). `save` returns
   `//{host}/n/{namespace}/b/{bucket}/o/{encodeURIComponent(fileName)}`. `read`
   reverses this:
   - it drops one trailing `/` or `\`;
   - it checks that the host occurs in the URL;
   - it takes the POSIX basename and percent-decodes it;
   - it drops one leading slash.
5. **Outcome mapping** (`OciStorage`).
   - `exists` maps success to `true` and a 404 to `false`, and rejects on any other
     error.
   - `delete` maps success to `true` and every backend error to `false`, so a backend
     error never rejects it.
   - `save` and `read` reject on any backend error.

The central theorem is `OciStorage.SaveThenRead`. Take any settings and any non-empty
file name `k` whose characters are bytes (see `UriComponent.Encode` under "## Left out"). The URL that `save` returns for `k` passes `read`'s host check, and `read`
then addresses the object `stripLeadingSlash(k)`. This holds because
`Encode` never emits `/` or `\`, so the basename of the URL is exactly the encoded
name, and because `Decode(Encode(k)) == Some(k)`. `SaveThenReadSameObject` adds a
consequence: `read` fetches the very object `save` uploaded exactly when `k` does not
start with `/`. `SaveEmptyNameReadsO` covers the boundary case: an empty name yields a
URL ending in `/o/`, which `read` resolves to the object `o`.

Backend calls are not modelled. Each operation is split in two:
- a function giving the `ObjectRequest` (bucket, namespace and object name) it sends;
- a function giving how its promise settles (`Settled`), given the backend's `Reply`.

The reply is a parameter: a value, or a failure with an optional HTTP status.

Some facts about the adapter that shape the model:
- The adapter has no double-prefix guard. `serve` glues the path prefix to the request
  path. `save` and `delete` pass the prefix to `getTargetDir` when no target directory
  is given (OciStorage.js:78, 119). `delete` joins the result into the key; the model
  takes it as the `defaultDir` parameter. `exists` and `read` do not use the prefix.
- The adapter performs no retries and does not choose between credential strategies.
  It always uses a config-file profile.
- The URL `save` returns has no scheme.
- `read` takes the basename of the URL. It does not look for an `o` segment.
- The constructor reads the host from `assetHost`. A configuration field named `host`,
  which the integration test passes, is ignored.

## Model

| member | source | states |
|---|---|---|
| `JsString.IndexOf` | OciStorage.js:12-13 | `indexOf`: -1 exactly when the character is absent; otherwise an index holding it, with no earlier occurrence |
| `JsString.Substring` | OciStorage.js:12-13 | `substring` returns the slice for in-range bounds; an end of -1 clamps to 0 |
| `JsString.Contains` | OciStorage.js:142 | true exactly when the host occurs at some index of the path |
| `JsString.ContainsInPrefix` | OciStorage.js:139-142 | a host found in the trimmed path is also found in the untrimmed URL |
| `Slashes.StripLeadingSlash` | OciStorage.js:12 | drops the first character exactly when it is `/`; otherwise the string is unchanged |
| `Slashes.StripLeadingSlashOnce` | OciStorage.js:12 | only one slash goes: `"//a"` becomes `"/a"`, and a second application gives `"a"`, so the helper is not idempotent |
| `Slashes.StripEndingSlash` | OciStorage.js:13 | drops the last character exactly when it is `/` and no other `/` precedes it; `""` maps to `""` |
| `Slashes.StripEndingSlashKeepsInnerSlashes` | OciStorage.js:13 | a string with a `/` before its last index is returned unchanged |
| `Slashes.StripEndingSlashExamples` | OciStorage.js:13 | `"a/b/"` stays `"a/b/"`, `"a/"` becomes `"a"`, `""` stays `""` |
| `PosixPath.CollapseSlashes` | OciStorage.js:60 | the result has no doubled slash, is empty only for empty input, and keeps the first and last characters |
| `PosixPath.CollapseKeepsSegments` | OciStorage.js:60 | collapsing keeps the part before the first slash and every non-empty component in order; with `CollapseSlashes`'s ensures, this fixes the result: a run of slashes becomes exactly one slash |
| `PosixPath.CollapseKeepsContent` | OciStorage.js:60 | collapsing keeps every non-slash character in order |
| `PosixPath.CollapseIdentity` | OciStorage.js:60 | a path without doubled slashes is left unchanged |
| `PosixPath.SingleComponent` | OciStorage.js:60 | a non-empty name without `/` that is not `.` or `..` is a clean single component |
| `PosixPath.Join` | OciStorage.js:60 | `path.join` never returns an empty string or a doubled slash; two empty arguments give `.`; otherwise the non-empty components of the result are those of the directory followed by those of the name, and the result is absolute, or ends in a slash, exactly when the concatenated arguments are or do; so `("a/", "b")` gives `a/b` and nothing else |
| `PosixPath.JoinKeepsContent` | OciStorage.js:60 | the joined path keeps the non-slash characters of the directory, then those of the file name |
| `PosixPath.JoinClean` | OciStorage.js:60 | a clean relative directory and a clean name join to `dir + "/" + name` |
| `PosixPath.TrimTrailingSlashes` | OciStorage.js:145 | removes exactly the trailing run of slashes and keeps the rest as a prefix |
| `PosixPath.LastSegment` | OciStorage.js:145 | the longest slash-free suffix of the path |
| `PosixPath.Basename` | OciStorage.js:145 | `path.basename` contains no `/` and is empty exactly when the path is all slashes |
| `PosixPath.BasenameAfterSlash` | OciStorage.js:145 | the basename of `a + "/" + b` is `b` when `b` is non-empty and has no slash |
| `UriComponent.IsUnreserved` | OciStorage.js:93 | the characters `encodeURIComponent` keeps are ASCII, and none is `/`, `\` or `%` |
| `UriComponent.HexDigit` | OciStorage.js:93 | the digit emitted is `0`-`9` or upper-case `A`-`F`, and its value is the input |
| `UriComponent.EncodeByte` | OciStorage.js:93 | an unreserved byte is kept; any other byte becomes `%HH`, with upper-case `HH` naming that byte; never `/` or `\` |
| `UriComponent.Encode` | OciStorage.js:93 | `encodeURIComponent` output holds no `/` or `\`, is at least as long as the input, and is empty only for empty input |
| `UriComponent.Decode` | OciStorage.js:145 | a successful decoding is no longer than its input |
| `UriComponent.DecodePlain` | OciStorage.js:145 | a character other than `%` decodes to itself, in front of the decoding of the rest |
| `UriComponent.DecodeEscape` | OciStorage.js:145 | an escape `%HH` or `%hh`, in either case, decodes to the byte the two digits name, in front of the decoding of the rest |
| `UriComponent.DecodeAppend` | OciStorage.js:145 | when a prefix decodes, the whole decodes exactly when the rest does, to the prefix's decoding followed by the rest's |
| `UriComponent.DecodeEncode` | OciStorage.js:145 | `decodeURIComponent(encodeURIComponent(s)) == s` for every byte string |
| `UriComponent.DecodeFailsIff` | OciStorage.js:145 | decoding throws exactly when some `%` is not followed by two hex digits |
| `UriComponent.DecodeWithoutEscapes` | OciStorage.js:145 | a string without `%` decodes to itself |
| `Configuration.Or` | OciStorage.js:34-43 | the JavaScript `or` of two values is truthy exactly when one operand is, and is defined when the right operand is |
| `Configuration.FirstTruthy` | OciStorage.js:34-43 | the value of a chain of JavaScript `or`s: the first truthy candidate, or the last candidate when none is truthy |
| `Configuration.FirstTruthyOfTwo` | OciStorage.js:34-37 | a two-operand chain, environment `or` configuration, is the first truthy of the two |
| `Configuration.FirstTruthyOfThree` | OciStorage.js:39-43 | a three-operand chain, environment `or` configuration `or` default, is the first truthy of the three |
| `Configuration.DerivedHost` | OciStorage.js:40 | the default host starts with the namespace and `.objectstorage.`, has the region right after, and ends with `.oci.customer-oci.com`; a missing value reads `undefined` |
| `Configuration.Resolve` | OciStorage.js:34-43 | each field is the first truthy of environment, configuration and default; the host defaults to the derived endpoint; the prefix has one leading slash removed; host, profile and config path are never empty |
| `Configuration.HostDefault` | OciStorage.js:39-40 | without HOST or `assetHost`, host = namespace + `.objectstorage.` + region + `.oci.customer-oci.com` |
| `Configuration.PathPrefixLeadingSlash` | OciStorage.js:41 | the resolved prefix starts with `/` exactly when the raw value started with `//` |
| `Configuration.EnvironmentWins` | OciStorage.js:34-43 | when every environment variable is non-empty, the configuration object has no effect |
| `Configuration.NothingConfigured` | OciStorage.js:34-43 | with nothing set, identifiers are undefined, the host is `undefined.objectstorage.undefined.oci.customer-oci.com`, and profile and config path take their defaults |
| `OciStorage.ObjectKey` | OciStorage.js:60 | the key for `exists` and `delete` never starts with `/`, has no doubled slash, is `.` for two empty arguments, and otherwise has the directory's non-empty components followed by the file name's, ending in `/` exactly when the file name (or an empty name's directory) does; so `("a", "b/")` gives `a/b/` |
| `OciStorage.ExistsRequest` | OciStorage.js:59-62 | `exists` asks the adapter's bucket and namespace for the object whose components are the directory's then the file name's, without a leading slash, with single slashes between components and the arguments' trailing slash kept, and `.` for two empty arguments |
| `OciStorage.ObjectKeyClean` | OciStorage.js:126 | a clean directory and file name give the key `dir/fileName` |
| `OciStorage.ExistsOutcome` | OciStorage.js:63-71 | resolves `true` exactly on success and `false` exactly on a 404; otherwise rejects with the backend's error |
| `OciStorage.SaveRequest` | OciStorage.js:86-89 | `save` uploads to the adapter's bucket and namespace under the file name exactly as given |
| `OciStorage.UploadContentType` | OciStorage.js:91 | the upload's content type is the image's type when non-empty; otherwise `application/octet-stream` |
| `OciStorage.PublicUrl` | OciStorage.js:93 | the URL `save` returns contains the host, and for a non-empty name its basename is the encoded name |
| `OciStorage.SaveOutcome` | OciStorage.js:92-96 | resolves to the public URL exactly when the upload succeeds; otherwise rejects with its error |
| `OciStorage.ServeKey` | OciStorage.js:107 | the served key keeps every non-slash character of the prefix and then of the request path, in order, and drops at most two slashes |
| `OciStorage.ServeRequest` | OciStorage.js:104-108 | `serve` fetches from the adapter's bucket and namespace a key holding the prefix's and the path's non-slash characters in order |
| `OciStorage.ServeWithoutPrefix` | OciStorage.js:107 | with an empty prefix, the served key is the request path less its leading slash |
| `OciStorage.ServeWithSimplePrefix` | OciStorage.js:107 | a one-component prefix, with or without a trailing slash, is glued to the request path |
| `OciStorage.ServeWithUnterminatedPrefix` | OciStorage.js:107 | a relative prefix without a trailing slash, such as `content/images`, is glued to the request path unchanged: `/x.png` is served from `content/images/x.png` |
| `OciStorage.ServeWithNestedPrefix` | OciStorage.js:107 | a prefix with an inner slash keeps its trailing slash, so the served key contains `//` |
| `OciStorage.DeleteDirectory` | OciStorage.js:119 | the directory is `targetDir || getTargetDir(pathPrefix)`: the first truthy of the two |
| `OciStorage.DeleteRequest` | OciStorage.js:123-126 | `delete` names the adapter's bucket and namespace and the object whose components are the directory's then the file name's, without a leading slash, with single slashes between components and the arguments' trailing slash kept, and `.` for two empty arguments |
| `OciStorage.DeleteOutcome` | OciStorage.js:127-131 | `delete` always resolves, to `true` exactly when the deletion succeeded |
| `OciStorage.ExistsAndDeleteAgree` | OciStorage.js:118-133 | a cross-reference rather than a result: both requests derive their key with `ObjectKey`, so with the same directory and file name `delete` addresses the object `exists` asks about |
| `OciStorage.TrimTrailingSeparator` | OciStorage.js:139 | removes one character, exactly when the path ends in `/` or `\` |
| `OciStorage.ReadRequest` | OciStorage.js:134-151 | rejects as not stored here exactly when the trimmed path lacks the host; the only other failure is a malformed escape; a success addresses the adapter's bucket and namespace |
| `OciStorage.ReadOutcome` | OciStorage.js:147-158 | resolves to the downloaded bytes exactly when the URL is accepted and the download succeeds; keeps the URL's own rejection; a failed download rejects with the backend's error |
| `OciStorage.SaveThenRead` | OciStorage.js:139-151 | for a non-empty name `k`, `read` of `save`'s URL addresses `stripLeadingSlash(k)` in the same bucket and namespace |
| `OciStorage.SaveThenReadSameObject` | OciStorage.js:89-151 | `read` fetches the object `save` uploaded exactly when the name does not start with `/` |
| `OciStorage.SaveThenReadOutcome` | test/OciStorageAdapter.test.js:57-81 | after a successful upload, reading the returned URL yields the bytes the store returns |
| `OciStorage.ReadOfAcceptedPath` | OciStorage.js:139-151 | a URL whose trimmed form is `dir/name` and mentions the host addresses the decoded `name` less one leading slash, or fails as malformed |
| `OciStorage.SaveEmptyNameReadsO` | OciStorage.js:139-151 | an empty file name gives a URL whose `read` addresses the object `o` |
| `OciStorage.ReadRejectsForeignUrl` | OciStorage.js:142-144 | a URL that does not contain the host is rejected as not stored here |

## Left out

- The OCI SDK client (`ocis`: the config-file authentication provider and `ObjectStorageClient`) and every `headObject`, `putObject`, `getObject` and `deleteObject` call. They are network I/O. Their results are the `Reply` parameter of each outcome function.
- `serve`'s streaming: header forwarding, `.pipe(res)`, and the 404 status with `next(err)` on error. These are Express and stream I/O. Only the key `serve` computes is modelled.
- `fs.readFile` of the image, reading the body into a buffer in `read`, and `console.error` logging. These are I/O and asynchronous plumbing.
- `save`'s `Promise.all` has no `catch` (OciStorage.js:80-97). If `readFile` or `getUniqueFileName` fails, `save`'s promise never settles: it stays pending instead of rejecting. The model starts from a file name that was obtained, so it does not capture this.
- Exceptions thrown inside an operation's promise executor reject that promise even for `delete`. Examples are `path.join`'s `TypeError` for a non-string file name and a failure to build the client in `ocis()`. These are not modelled; `DeleteOutcome` covers backend errors only.
- `getUniqueFileName` and `getTargetDir` come from `ghost-storage-base`, which is not part of this model.
  - The file name `save` uploads is an arbitrary input.
  - The directory `save` computes only feeds `getUniqueFileName`, so it does not appear.
  - `delete`'s fallback directory is the `defaultDir` parameter.
- `OciStorage.ReadRequest`: the source tests the host with `String.prototype.search`, which reads the host as a regular expression. There, `.` matches any character, and a host containing regex syntax can throw. The model uses plain substring containment instead. When the host consists only of letters, digits, `-`, `.` and `:`, both accept every URL `save` returns. On other URLs, a `.` in the host matches any character in the source but only `.` in the model. For a host with other regex syntax, even `save`'s own URLs can be treated differently: with host `a+b`, `search` does not find the literal text `a+b`, so the source rejects a URL that the model accepts.
- `read` calls `reject` when the host is missing, but still goes on to decode and fetch. Later settlements of a settled promise have no effect, so the model stops at the rejection. The settled value is the same.
- `UriComponent.Encode`: a string stands for its UTF-8 bytes. Each character must be below 256, and the UTF-8 step and the `URIError` for lone surrogates are not modelled.
- `UriComponent.Decode`: escapes are decoded byte by byte. The UTF-8 validity check `decodeURIComponent` applies to escapes above `%7F` is not modelled.
- `PosixPath.Join`: specified only for arguments without `.` or `..` components. Node's resolution of those components is not modelled, nor is the `TypeError` for a non-string argument.
- `pth` is taken to be Node's POSIX `path`. On Windows, `require('path')` is `path.win32`: its `join` inserts `\` and its `basename` also splits at `\`, so the keys at OciStorage.js:60, 126 and 145 would differ there.
- `MAX_FILENAME_BYTES` is declared but never used by the adapter.
- Configuration values that are neither strings nor `undefined` (numbers, objects) are not modelled. A missing configuration object, which makes the destructuring throw, is not modelled either.
