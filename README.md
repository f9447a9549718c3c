# Static assets controller of the Jellyfin StaticAssets plugin

This project models the asset controller of the Jellyfin StaticAssets plugin.
The controller keeps uploaded files in one flat uploads directory and serves
four endpoints:

- **list** (`GET StaticAssets/list`) returns one `AssetInfo` per file.
- **upload** (`POST StaticAssets/upload`) checks the file and its extension,
  then stores it under its sanitised name.
- **fetch** (`GET StaticAssets/asset/{filename}`) serves a stored file with a
  content type chosen by its extension.
- **delete** (`DELETE StaticAssets/asset/{filename}`) removes a stored file.

The project has five modules:

- `PathApi` (PathApi.dfy) models the members of `System.IO.Path` that the
  controller calls: `GetFileName`, `GetExtension` and `Combine`.
- `InvariantCulture` (InvariantCulture.dfy) models `String.ToLowerInvariant`.
- `MediaTypes` (MediaTypes.dfy) holds the controller's two extension tables:
  the sixteen-entry upload allow-list and the content-type switch.
- `AssetService` (AssetService.dfy) holds the data model. `Upload`, `Fetch`,
  `Delete` and the `IsListing` predicate state what each endpoint does to
  the directory and which response it gives. The lemmas state the
  properties of these functions.
- `StaticAssetsApi` (AssetsController.dfy) holds the class
  `AssetsController`. Its field `uploads` maps the name of each regular file
  of the assets directory to the file's bytes. Its methods follow the
  controller statement by statement. They work on full paths built with
  `Combine` and test existence through `FileExists`. Each method is proved
  to give the response, and leave the directory, that the matching
  `AssetService` function describes.

Responses are `Ok(body)`, `BadRequest(message)`, `NotFound` and
`ServerError(message)`, with the controller's own message texts. A failing
write or delete is an explicit parameter of the method. A failing upload
carries the exception's message. A failure leaves the directory unchanged.

## Model

| member | source | states |
|---|---|---|
| PathApi.LastSeparator | Jellyfin.Plugin.StaticAssets/Api/AssetsController.cs:96 | the index of the last directory separator, or -1; no separator follows it |
| PathApi.GetFileName | Jellyfin.Plugin.StaticAssets/Api/AssetsController.cs:96 | the sanitised name holds no separator and is the longest separator-free suffix of the path; a shorter result is preceded by a separator |
| PathApi.ExtensionDot | Jellyfin.Plugin.StaticAssets/Api/AssetsController.cs:88 | the extension's '.' is the last '.' after the last separator, or -1 when there is none |
| PathApi.GetExtension | Jellyfin.Plugin.StaticAssets/Api/AssetsController.cs:88 | the extension is "" or a suffix of the path that starts with '.', has at least one more character, and holds no further '.' and no separator |
| PathApi.Combine | Jellyfin.Plugin.StaticAssets/Api/AssetsController.cs:97 | joining a root and a relative name keeps the root as the prefix and the name as the suffix |
| PathApi.CombineAll | Jellyfin.Plugin.StaticAssets/Api/AssetsController.cs:40 | the full paths `Directory.GetFiles` yields: each entry's name combined with the assets directory |
| PathApi.BareNameIsFileName | Jellyfin.Plugin.StaticAssets/Api/AssetsController.cs:130 | a name without separators is unchanged by sanitising |
| PathApi.GetFileNameIdempotent | Jellyfin.Plugin.StaticAssets/Api/AssetsController.cs:130 | sanitising twice is sanitising once |
| PathApi.FileNameAfterSeparator | Jellyfin.Plugin.StaticAssets/Api/AssetsController.cs:96 | whatever follows a trailing separator is the file name |
| PathApi.CombineBareName | Jellyfin.Plugin.StaticAssets/Api/AssetsController.cs:97 | a non-empty bare name combined with the assets directory is the directory prefix followed by the name, and sanitises back to the name |
| PathApi.CombineInjective | Jellyfin.Plugin.StaticAssets/Api/AssetsController.cs:131 | distinct bare names give distinct paths, and no non-empty name gives the directory itself |
| PathApi.CombineAllMember | Jellyfin.Plugin.StaticAssets/Api/AssetsController.cs:40-47 | each full path the directory enumeration yields sanitises to a stored name that combines back to that path |
| PathApi.CombineAllEmpty | Jellyfin.Plugin.StaticAssets/Api/AssetsController.cs:40-42 | an enumeration without paths comes from a directory without entries |
| PathApi.CombineAllRemove | Jellyfin.Plugin.StaticAssets/Api/AssetsController.cs:42-52 | dropping one entry drops exactly its path from the enumeration |
| PathApi.ExtensionOfBareName | Jellyfin.Plugin.StaticAssets/Api/AssetsController.cs:88 | the extension of a bare name runs from its last '.' when that '.' is not the last character |
| PathApi.ExtensionOfFileName | Jellyfin.Plugin.StaticAssets/Api/AssetsController.cs:88-96 | the extension of a raw client path equals the extension of its sanitised name |
| PathApi.ExtensionBelowRoot | Jellyfin.Plugin.StaticAssets/Api/AssetsController.cs:137 | the extension of a stored file's full path is the extension of its name |
| PathApi.SanitisingKeepsDotDot | Jellyfin.Plugin.StaticAssets/Api/AssetsController.cs:130 | sanitising leaves a bare ".." unchanged, turns "uploads/" into "", cuts "../../etc/passwd" to "passwd" and "a/../.." to ".." |
| PathApi.ExtensionExcludesDotNames | Jellyfin.Plugin.StaticAssets/Api/AssetsController.cs:88-91 | a name with a non-empty extension is not "", "." or ".." |
| InvariantCulture.ToLowerChar | Jellyfin.Plugin.StaticAssets/Api/AssetsController.cs:88 | the result is not an upper-case letter; it is the character itself or that letter shifted to lower case |
| InvariantCulture.ToLowerInvariant | Jellyfin.Plugin.StaticAssets/Api/AssetsController.cs:88 | lower-casing keeps the length and leaves no upper-case letter |
| InvariantCulture.ToLowerAt | Jellyfin.Plugin.StaticAssets/Api/AssetsController.cs:88 | each character is lower-cased on its own |
| InvariantCulture.LowerCaseIsFixed | Jellyfin.Plugin.StaticAssets/Api/AssetsController.cs:88 | a string without upper-case letters is unchanged |
| InvariantCulture.ToLowerIdempotent | Jellyfin.Plugin.StaticAssets/Api/AssetsController.cs:137 | lower-casing twice is lower-casing once |
| InvariantCulture.ToLowerForgetsCase | Jellyfin.Plugin.StaticAssets/Api/AssetsController.cs:88 | strings that differ only in letter case lower-case to the same string |
| InvariantCulture.ToLowerSamples | Jellyfin.Plugin.StaticAssets/Api/AssetsController.cs:88 | ".PNG" lower-cases to ".png" and ".exe" is unchanged |
| MediaTypes.Contains | Jellyfin.Plugin.StaticAssets/Api/AssetsController.cs:90 | `Enumerable.Contains`: a linear search that compares each list entry with the value by ordinal string equality |
| MediaTypes.IsAllowedExtension | Jellyfin.Plugin.StaticAssets/Api/AssetsController.cs:80-90 | the upload gate: the extension is one of the sixteen allow-list entries |
| MediaTypes.ContainsIsMembership | Jellyfin.Plugin.StaticAssets/Api/AssetsController.cs:90 | the linear search of the allow-list finds exactly its members |
| MediaTypes.ContentType | Jellyfin.Plugin.StaticAssets/Api/AssetsController.cs:138-162 | the switch is total (never empty); any specific type belongs to a '.'-led extension of at least two characters |
| MediaTypes.AllowedEntriesHaveContentTypes | Jellyfin.Plugin.StaticAssets/Api/AssetsController.cs:80-87 | every allow-list entry has a content type other than application/octet-stream |
| MediaTypes.ContentTypedExtensionsAreAllowed | Jellyfin.Plugin.StaticAssets/Api/AssetsController.cs:138-162 | every extension with a specific content type is on the allow-list |
| MediaTypes.AllowListMatchesContentTypes | Jellyfin.Plugin.StaticAssets/Api/AssetsController.cs:80-162 | an extension is allowed exactly when the switch gives it a specific content type |
| MediaTypes.AllowedExtensionShape | Jellyfin.Plugin.StaticAssets/Api/AssetsController.cs:80-87 | every allowed extension starts with '.' and has at least two characters |
| MediaTypes.PngIsAllowed | Jellyfin.Plugin.StaticAssets/Api/AssetsController.cs:80-90 | ".png" passes the allow-list |
| MediaTypes.ExecutableIsRefused | Jellyfin.Plugin.StaticAssets/Api/AssetsController.cs:80-91 | ".exe" fails the allow-list |
| MediaTypes.ContentTypeSamples | Jellyfin.Plugin.StaticAssets/Api/AssetsController.cs:141-161 | ".jpg" and ".jpeg" give image/jpeg, ".ogv" gives video/ogg, ".htm" and ".html" give text/html; ".exe", "" and the upper-case ".PNG" give application/octet-stream |
| AssetService.AssetUrl | Jellyfin.Plugin.StaticAssets/Api/AssetsController.cs:107 | the URL is the asset route followed by exactly the file name |
| AssetService.ExtensionOf | Jellyfin.Plugin.StaticAssets/Api/AssetsController.cs:88 | the lower-cased extension of a name, the key of both extension tables |
| AssetService.Upload | Jellyfin.Plugin.StaticAssets/Api/AssetsController.cs:67-119 | the upload endpoint as a function of the directory: "No file uploaded" for a missing or empty file, "File type not allowed" for a refused extension, the exception message for a failed write, otherwise the bytes stored under the sanitised name and the success message with the URL |
| AssetService.Fetch | Jellyfin.Plugin.StaticAssets/Api/AssetsController.cs:127-166 | the fetch endpoint: NotFound when the sanitised name is not stored, otherwise its bytes with the content type of its lower-cased extension |
| AssetService.Delete | Jellyfin.Plugin.StaticAssets/Api/AssetsController.cs:172-191 | the delete endpoint: NotFound when the sanitised name is not stored, "Error deleting file" when the deletion fails, otherwise the name removed and the success message |
| AssetService.Describe | Jellyfin.Plugin.StaticAssets/Api/AssetsController.cs:45-51 | the `AssetInfo` of one file: its name, its length in bytes, its creation time and its URL |
| AssetService.IsListing | Jellyfin.Plugin.StaticAssets/Api/AssetsController.cs:40-54 | a list response describes every stored file exactly once, in any order |
| AssetService.AllowedNameIsStoredName | Jellyfin.Plugin.StaticAssets/Api/AssetsController.cs:88-96 | a sanitised name that passes the allow-list is a storable file name (not "", "." or "..") |
| AssetService.GateAgreesWithSanitisedName | Jellyfin.Plugin.StaticAssets/Api/AssetsController.cs:88-96 | the extension checked on the raw client name is the extension of the sanitised name the file is stored under |
| AssetService.DotNamesAreNotFound | Jellyfin.Plugin.StaticAssets/Api/AssetsController.cs:130-134 | names that sanitise to "", "." or ".." are never found, and deleting them gives NotFound and changes nothing, whether or not a deletion would fail |
| AssetService.UploadRejectsMissingFile | Jellyfin.Plugin.StaticAssets/Api/AssetsController.cs:71-75 | a missing or empty file gives "No file uploaded" and leaves the directory unchanged |
| AssetService.UploadRejectsDisallowedType | Jellyfin.Plugin.StaticAssets/Api/AssetsController.cs:88-91 | a non-empty file whose lower-cased extension is not allowed gives "File type not allowed" and leaves the directory unchanged |
| AssetService.UploadStores | Jellyfin.Plugin.StaticAssets/Api/AssetsController.cs:96-108 | an upload that passes both checks and does not fault stores the bytes under the sanitised name and returns the success message and URL |
| AssetService.UploadOkExactly | Jellyfin.Plugin.StaticAssets/Api/AssetsController.cs:71-119 | an upload succeeds iff the file is present and non-empty, its extension is allowed and the write does not fault; any other outcome leaves the directory unchanged |
| AssetService.UploadSucceeds | Jellyfin.Plugin.StaticAssets/Api/AssetsController.cs:71-119 | an upload succeeds iff the file is present and non-empty, its extension is allowed and the write does not fault; on success only the sanitised name's entry changes; otherwise nothing changes |
| AssetService.UploadKeepsDirectoryValid | Jellyfin.Plugin.StaticAssets/Api/AssetsController.cs:88-103 | uploads only ever create plain file names in the directory |
| AssetService.UploadThenFetch | Jellyfin.Plugin.StaticAssets/Api/AssetsController.cs:96-165 | after a successful upload, fetching the raw name or the URL's tail after the route serves exactly the uploaded bytes, with a specific content type |
| AssetService.UploadOverwrites | Jellyfin.Plugin.StaticAssets/Api/AssetsController.cs:100-103 | a second upload under the same sanitised name replaces the first file's bytes |
| AssetService.MixedCaseName | Jellyfin.Plugin.StaticAssets/Api/AssetsController.cs:88 | "image.PNG" is its own file name and its lower-cased extension is ".png" |
| AssetService.ExecutableName | Jellyfin.Plugin.StaticAssets/Api/AssetsController.cs:88 | the lower-cased extension of "payload.exe" is ".exe" |
| AssetService.UploadAcceptsMixedCase | Jellyfin.Plugin.StaticAssets/Api/AssetsController.cs:88-108 | "image.PNG" passes the case-insensitive check and is stored under its own name |
| AssetService.MixedCaseServedAsPng | Jellyfin.Plugin.StaticAssets/Api/AssetsController.cs:137-142 | a stored "image.PNG" is served as image/png |
| AssetService.UploadRejectsExecutable | Jellyfin.Plugin.StaticAssets/Api/AssetsController.cs:88-91 | "payload.exe" is refused and the directory is unchanged |
| AssetService.FetchFindsStoredFiles | Jellyfin.Plugin.StaticAssets/Api/AssetsController.cs:130-165 | fetch gives NotFound iff the sanitised name is not stored, and otherwise exactly the stored bytes; an allowed extension gets a specific content type |
| AssetService.DeleteRemovesOnlyThatFile | Jellyfin.Plugin.StaticAssets/Api/AssetsController.cs:175-190 | delete gives NotFound iff the name is absent and succeeds iff the name is present and no fault occurs; success removes exactly that name and keeps the other files; any other outcome changes nothing |
| AssetService.DeleteKeepsDirectoryValid | Jellyfin.Plugin.StaticAssets/Api/AssetsController.cs:183 | deletion keeps every stored name a plain file name |
| AssetService.DeleteThenFetchAndDelete | Jellyfin.Plugin.StaticAssets/Api/AssetsController.cs:175-184 | after a successful delete, fetching and deleting the same name both give NotFound and change nothing |
| AssetService.ListingHasOneEntryPerFile | Jellyfin.Plugin.StaticAssets/Api/AssetsController.cs:40-54 | a listing has as many entries as the directory has files, and an empty directory lists nothing |
| AssetService.DistinctFilenamesCount | Jellyfin.Plugin.StaticAssets/Api/AssetsController.cs:42-52 | entries with pairwise distinct names name as many files as there are entries |
| AssetService.ListedAssetsAreFetchable | Jellyfin.Plugin.StaticAssets/Api/AssetsController.cs:45-51 | each entry's URL tail after the route is the entry's file name, and fetching that name serves bytes of the listed size |
| AssetService.ListingStep | Jellyfin.Plugin.StaticAssets/Api/AssetsController.cs:42-52 | describing one more unvisited file extends a partial listing by exactly that file |
| StaticAssetsApi.AssetsController.constructor | Jellyfin.Plugin.StaticAssets/Plugin.cs:110-116 | the controller starts on a non-empty assets directory that holds the given files |
| StaticAssetsApi.AssetsController.FileExists | Jellyfin.Plugin.StaticAssets/Api/AssetsController.cs:133 | `File.Exists`: a regular file is stored at exactly this full path (the directory itself and absent names do not count) |
| StaticAssetsApi.AssetsController.ExistsExactlyWhenStored | Jellyfin.Plugin.StaticAssets/Api/AssetsController.cs:131-133 | the existence check on a sanitised name's full path holds exactly when the name is stored; "" names the directory itself, which is no file |
| StaticAssetsApi.AssetsController.GetAssets | Jellyfin.Plugin.StaticAssets/Api/AssetsController.cs:33-60 | a read failure gives "Error retrieving assets"; otherwise the result lists every stored file once, with its name, size, creation time and URL |
| StaticAssetsApi.AssetsController.UploadAsset | Jellyfin.Plugin.StaticAssets/Api/AssetsController.cs:67-119 | the response and the new directory are those of Upload on the old directory, and the directory stays valid |
| StaticAssetsApi.AssetsController.GetAsset | Jellyfin.Plugin.StaticAssets/Api/AssetsController.cs:127-166 | the response is that of Fetch on the directory, which is not modified |
| StaticAssetsApi.AssetsController.DeleteAsset | Jellyfin.Plugin.StaticAssets/Api/AssetsController.cs:172-191 | the response and the new directory are those of Delete on the old directory, and the directory stays valid |

## Left out

- Path semantics: `Path` is modelled as on Unix. '/' is the only separator, and a path is rooted when it starts with '/'. The Windows separator '\\' and drive or volume prefixes are not modelled.
- InvariantCulture.ToLowerChar and InvariantCulture.ToLowerInvariant map only 'A'..'Z' to 'a'..'z'. The non-ASCII case mappings of the invariant culture are not modelled. This cannot change a decision of either extension table. The only non-ASCII character that the invariant culture lower-cases to an ASCII letter is the Kelvin sign U+212A, which becomes 'k'; U+0130 is kept as it is. No table entry contains 'k'. So an extension with a non-ASCII character is refused and served as application/octet-stream both by the model and by the controller.
- The assets directory is flat. It holds regular files only, keyed by name. Sub-directories, links, permissions and other processes writing the directory are not modelled.
- File-system failures are parameters of the methods. A failed read of the list, a failed write or a failed delete leaves the directory unchanged. A partially written file left by a failed copy is not modelled.
- `StaticAssetsApi.AssetsController.GetAssets`: one `readFault` parameter models any exception in the listing. An exception raised halfway through the loop is not told apart from one raised before it.
- URLs are not percent-encoded. The controller puts the stored name into the URL as it is (AssetsController.cs lines 50 and 107), and the model does the same. Parsing the URL and percent-decoding the `{filename}` route value are not modelled. The lemmas about the URL therefore speak of its tail after the route as a string. For a name such as `a#b.png`, `q?.png` or `x%41.png`, a client that requests the returned URL asks for a different name.
- Enumeration order: `Directory.GetFiles` returns the files in no specified order. The loop picks the next path arbitrarily, and the listing is specified up to order.
- `DateUploaded` is the file's creation time. It comes from a `creationTime` parameter, a tick count standing in for `DateTime`.
- `Size` is an unbounded integer. The 64-bit `long` of `FileInfo.Length` is not modelled, because no stored byte sequence comes near that bound.
- `PhysicalFile` is modelled as the bytes and the content type. Streaming, range requests and caching headers are not modelled.
- Logging (`ILogger`, `Console.WriteLine`) is left out. It has no effect on responses or files.
- Asynchronous copying (`CopyToAsync`) is modelled as one atomic write. Concurrent requests are not modelled.
- Authorisation attributes (`Authorize`, `AllowAnonymous`) and routing are left out. They act before the controller runs.
- The plugin configuration (`MaxFileSize`, `AllowNonAdminUploads`) is left out. The controller never reads it.
- The rest of `Plugin.cs` is not part of this model. That covers the embedded web page, version reporting and the derivation of the assets directory from the data path. Only the fact that the directory exists and has a non-empty path is kept, as the constructor's precondition.
- Sanitising is `Path.GetFileName` and nothing more. It removes separators but not "..". A bare ".." or "." is kept, which the model follows, and such names never reach a stored file (`AssetService.DotNamesAreNotFound`).
