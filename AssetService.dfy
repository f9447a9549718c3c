/**
 * What each endpoint of the asset controller does to the uploads directory
 * and which response it gives, stated as functions of the directory's
 * contents. The directory is flat: it maps each stored file name to the
 * file's bytes.
 */
module AssetService {
  import opened PathApi
  import opened InvariantCulture
  import opened MediaTypes

  newtype byte = b: int | 0 <= b < 256

  datatype Option<T> = None | Some(value: T)

  /** The regular files directly under the uploads directory, by file name. */
  type Directory = map<string, seq<byte>>

  /** File-system creation time of a stored file, as a tick count. */
  type Timestamp = int

  /** An uploaded form file: the client's file name and the bytes sent. */
  datatype FormFile = FormFile(fileName: string, content: seq<byte>)

  /** One entry of the asset list. */
  datatype AssetInfo = AssetInfo(filename: string, size: int, dateUploaded: Timestamp, url: string)

  /** The payload of a successful response. */
  datatype Body =
    | Assets(items: seq<AssetInfo>)
    | Uploaded(message: string, url: string)
    | PhysicalFile(content: seq<byte>, contentType: string)
    | Deleted(message: string)

  /** HTTP 200, 400, 404 and 500 responses. */
  datatype Response =
    | Ok(body: Body)
    | BadRequest(message: string)
    | NotFound
    | ServerError(message: string)

  /** A response together with the directory it leaves behind. */
  datatype Outcome = Outcome(response: Response, after: Directory)

  const NoFileMessage: string := "No file uploaded"
  const TypeNotAllowedMessage: string := "File type not allowed"
  const UploadedMessage: string := "File uploaded successfully"
  const UploadErrorPrefix: string := "Error uploading file: "
  const ListErrorMessage: string := "Error retrieving assets"
  const DeletedMessage: string := "File deleted successfully"
  const DeleteErrorMessage: string := "Error deleting file"
  const AssetRoute: string := "/StaticAssets/asset/"

  /** The URL under which a stored file is served. */
  function AssetUrl(name: string): (url: string)
    ensures |url| == |AssetRoute| + |name|
    ensures url[..|AssetRoute|] == AssetRoute && url[|AssetRoute|..] == name
  {
    AssetRoute + name
  }

  /** A name a regular file of the directory can have. */
  predicate IsStoredName(name: string) {
    name != "" && name != "." && name != ".." && HasNoSeparator(name)
  }

  predicate ValidDirectory(d: Directory) {
    forall name :: name in d ==> IsStoredName(name)
  }

  /** The lower-cased extension of a name, as both extension tables key it. */
  function ExtensionOf(name: string): string {
    ToLowerInvariant(GetExtension(name))
  }

  /**
   * Upload: reject a missing or empty file, then a file whose extension is
   * not allowed; otherwise create or overwrite the file under the sanitised
   * name, unless the write fails with the given exception message.
   */
  function Upload(d: Directory, file: Option<FormFile>, fault: Option<string>): Outcome {
    if file.None? || |file.value.content| == 0 then
      Outcome(BadRequest(NoFileMessage), d)
    else
      var name := GetFileName(file.value.fileName);
      if !IsAllowedExtension(ExtensionOf(name)) then
        Outcome(BadRequest(TypeNotAllowedMessage), d)
      else if fault.Some? then
        Outcome(ServerError(UploadErrorPrefix + fault.value), d)
      else
        Outcome(Ok(Uploaded(UploadedMessage, AssetUrl(name))), d[name := file.value.content])
  }

  /** Fetch: the stored bytes under the sanitised name, with their content type. */
  function Fetch(d: Directory, filename: string): Response {
    var name := GetFileName(filename);
    if name !in d then NotFound
    else Ok(PhysicalFile(d[name], ContentType(ExtensionOf(name))))
  }

  /** Delete: remove the file under the sanitised name, unless that fails. */
  function Delete(d: Directory, filename: string, fault: bool): Outcome {
    var name := GetFileName(filename);
    if name !in d then Outcome(NotFound, d)
    else if fault then Outcome(ServerError(DeleteErrorMessage), d)
    else Outcome(Ok(Deleted(DeletedMessage)), d - {name})
  }

  /** The list entry of one stored file. */
  function Describe(name: string, content: seq<byte>, created: Timestamp): AssetInfo {
    AssetInfo(name, |content|, created, AssetUrl(name))
  }

  function Filenames(items: seq<AssetInfo>): set<string> {
    set i | 0 <= i < |items| :: items[i].filename
  }

  /**
   * items lists the files of d outside remaining: one entry per such file,
   * in any order, each describing that file. This is the part of the
   * listing built before the files in remaining are visited.
   */
  ghost predicate ListsAllBut(items: seq<AssetInfo>, d: Directory, remaining: set<string>, creationTime: string -> Timestamp) {
    && Filenames(items) == d.Keys - remaining
    && (forall i, j :: 0 <= i < j < |items| ==> items[i].filename != items[j].filename)
    && (forall i :: 0 <= i < |items| ==>
          items[i].filename in d && items[i] == Describe(items[i].filename, d[items[i].filename], creationTime(items[i].filename)))
  }

  /** items lists d: one entry per stored file, in any order, each describing that file. */
  ghost predicate IsListing(items: seq<AssetInfo>, d: Directory, creationTime: string -> Timestamp) {
    ListsAllBut(items, d, {}, creationTime)
  }

  // ----- Names -----

  /**
   * A file name that passes the upload gate can be stored: its non-empty
   * extension rules out "", "." and "..".
   */
  lemma AllowedNameIsStoredName(name: string)
    requires HasNoSeparator(name) && IsAllowedExtension(ExtensionOf(name))
    ensures IsStoredName(name)
  {
    AllowedExtensionShape(ExtensionOf(name));
    ExtensionExcludesDotNames(name);
  }

  /**
   * The upload gate looks at the client's raw file name, the directory at
   * its sanitised name; the two give the same extension.
   */
  lemma GateAgreesWithSanitisedName(fileName: string)
    ensures ExtensionOf(fileName) == ExtensionOf(GetFileName(fileName))
  {
    ExtensionOfFileName(fileName);
  }

  /** Names that sanitise to "", "." or ".." never reach a stored file. */
  lemma DotNamesAreNotFound(d: Directory, filename: string, fault: bool)
    requires ValidDirectory(d)
    requires GetFileName(filename) in {"", ".", ".."}
    ensures Fetch(d, filename) == NotFound
    ensures Delete(d, filename, fault) == Outcome(NotFound, d)
  {
  }

  // ----- Upload -----

  /** A missing or empty file is rejected and creates nothing. */
  lemma UploadRejectsMissingFile(d: Directory, file: Option<FormFile>, fault: Option<string>)
    requires file.None? || file.value.content == []
    ensures Upload(d, file, fault) == Outcome(BadRequest(NoFileMessage), d)
  {
  }

  /** A file whose lower-cased extension is not allowed is rejected and creates nothing. */
  lemma UploadRejectsDisallowedType(d: Directory, file: FormFile, fault: Option<string>)
    requires file.content != []
    requires !IsAllowedExtension(ExtensionOf(file.fileName))
    ensures Upload(d, Some(file), fault) == Outcome(BadRequest(TypeNotAllowedMessage), d)
  {
    GateAgreesWithSanitisedName(file.fileName);
  }

  /** An upload that passes both checks and does not fault stores the file. */
  lemma UploadStores(d: Directory, file: FormFile, fault: Option<string>)
    requires file.content != [] && IsAllowedExtension(ExtensionOf(GetFileName(file.fileName))) && fault.None?
    ensures var name := GetFileName(file.fileName);
      Upload(d, Some(file), fault) == Outcome(Ok(Uploaded(UploadedMessage, AssetUrl(name))), d[name := file.content])
  {
  }

  /**
   * An upload succeeds exactly when a non-empty file with an allowed
   * extension is written without fault; then the sanitised name maps to
   * the uploaded bytes, every other file is unchanged and the URL names the
   * file. Any other upload leaves the directory as it was.
   */
  lemma UploadSucceeds(d: Directory, file: Option<FormFile>, fault: Option<string>)
    ensures var o := Upload(d, file, fault);
      o.response.Ok? <==>
        file.Some? && file.value.content != [] &&
        IsAllowedExtension(ExtensionOf(file.value.fileName)) && fault.None?
    ensures var o := Upload(d, file, fault);
      o.response.Ok? ==>
        var name := GetFileName(file.value.fileName);
        && o.response == Ok(Uploaded(UploadedMessage, AssetUrl(name)))
        && o.after.Keys == d.Keys + {name}
        && o.after[name] == file.value.content
        && (forall other :: other in d && other != name ==> o.after[other] == d[other])
    ensures var o := Upload(d, file, fault);
      !o.response.Ok? ==> o.after == d
  {
    UploadOkExactly(d, file, fault);
    if Upload(d, file, fault).response.Ok? {
      var name := GetFileName(file.value.fileName);
      UploadStoresUnderSanitisedName(d, file.value);
      UpdateChangesOneEntry(d, name, file.value.content);
    }
  }

  /** The success condition of UploadSucceeds, branch by branch; failures keep d. */
  lemma UploadOkExactly(d: Directory, file: Option<FormFile>, fault: Option<string>)
    ensures var o := Upload(d, file, fault);
      o.response.Ok? <==>
        file.Some? && file.value.content != [] &&
        IsAllowedExtension(ExtensionOf(file.value.fileName)) && fault.None?
    ensures var o := Upload(d, file, fault);
      !o.response.Ok? ==> o.after == d
  {
    if file.None? || file.value.content == [] {
      UploadRejectsMissingFile(d, file, fault);
    } else {
      var name := GetFileName(file.value.fileName);
      GateAgreesWithSanitisedName(file.value.fileName);
      if !IsAllowedExtension(ExtensionOf(name)) {
        UploadRejectsDisallowedType(d, file.value, fault);
      } else if fault.None? {
        UploadStores(d, file.value, fault);
      }
    }
  }

  /** A map update sets one key and keeps every other entry. */
  lemma UpdateChangesOneEntry<K, V>(m: map<K, V>, key: K, value: V)
    ensures m[key := value].Keys == m.Keys + {key} && m[key := value][key] == value
    ensures forall other :: other in m && other != key ==> m[key := value][other] == m[other]
  {
  }

  /** Uploads keep every stored name a plain file name. */
  lemma UploadKeepsDirectoryValid(d: Directory, file: Option<FormFile>, fault: Option<string>)
    requires ValidDirectory(d)
    ensures ValidDirectory(Upload(d, file, fault).after)
  {
    if file.Some? {
      var name := GetFileName(file.value.fileName);
      if IsAllowedExtension(ExtensionOf(name)) {
        AllowedNameIsStoredName(name);
      }
    }
  }

  /**
   * Round trip: after an upload that passes both checks and is written
   * without fault, fetching the raw name or the name at the end of the
   * returned URL gives back exactly the uploaded
   * bytes, with the content type of their extension, which is never the
   * generic one.
   */
  lemma UploadThenFetch(d: Directory, file: FormFile)
    requires file.content != [] && IsAllowedExtension(ExtensionOf(file.fileName))
    ensures Upload(d, Some(file), None).response == Ok(Uploaded(UploadedMessage, AssetUrl(GetFileName(file.fileName))))
    ensures var after := Upload(d, Some(file), None).after;
      Fetch(after, AssetUrl(GetFileName(file.fileName))[|AssetRoute|..]) ==
        Fetch(after, file.fileName) ==
        Ok(PhysicalFile(file.content, ContentType(ExtensionOf(file.fileName))))
    ensures ContentType(ExtensionOf(file.fileName)) != DefaultContentType
  {
    var name := GetFileName(file.fileName);
    UploadStoresUnderSanitisedName(d, file);
    assert GetFileName(name) == name by {
      GetFileNameIdempotent(file.fileName);
    }
    FetchStored(d[name := file.content], name);
    FetchStored(d[name := file.content], file.fileName);
    AllowListMatchesContentTypes(ExtensionOf(file.fileName));
  }

  /** The upload of the round trip stores the bytes under the sanitised name. */
  lemma UploadStoresUnderSanitisedName(d: Directory, file: FormFile)
    requires file.content != [] && IsAllowedExtension(ExtensionOf(file.fileName))
    ensures var name := GetFileName(file.fileName);
      && Upload(d, Some(file), None) == Outcome(Ok(Uploaded(UploadedMessage, AssetUrl(name))), d[name := file.content])
      && ExtensionOf(name) == ExtensionOf(file.fileName)
  {
    GateAgreesWithSanitisedName(file.fileName);
    UploadStores(d, file, None);
  }

  /** Fetching a name whose sanitised form is stored serves that file. */
  lemma FetchStored(d: Directory, filename: string)
    requires GetFileName(filename) in d
    ensures var name := GetFileName(filename);
      Fetch(d, filename) == Ok(PhysicalFile(d[name], ContentType(ExtensionOf(name))))
  {
  }

  /**
   * Last writer wins: two successful uploads under the same sanitised name
   * leave one file, holding the second upload's bytes.
   */
  lemma UploadOverwrites(d: Directory, first: FormFile, second: FormFile)
    requires GetFileName(first.fileName) == GetFileName(second.fileName)
    requires Upload(d, Some(first), None).response.Ok?
    ensures var o1 := Upload(d, Some(first), None);
      var o2 := Upload(o1.after, Some(second), None);
      var name := GetFileName(second.fileName);
      && o2.response.Ok? == (second.content != [])
      && (o2.response.Ok? ==> o2.after == d[name := second.content])
  {
    var name := GetFileName(first.fileName);
    var after := d[name := first.content];
    assert first.content != [] && IsAllowedExtension(ExtensionOf(name));
    UploadStores(d, first, None);
    if second.content == [] {
      UploadRejectsMissingFile(after, Some(second), None);
    } else {
      UploadStores(after, second, None);
      UpdateTwice(d, name, first.content, second.content);
    }
  }

  /** A second write to a key hides the first. */
  lemma UpdateTwice(d: Directory, name: string, a: seq<byte>, b: seq<byte>)
    ensures d[name := a][name := b] == d[name := b]
  {
  }

  /** "image.PNG" is a bare name whose lower-cased extension is ".png". */
  lemma MixedCaseName(name: string)
    requires name == "image.PNG"
    ensures GetFileName(name) == name && ExtensionOf(name) == ".png"
  {
    BareNameIsFileName(name);
    ExtensionOfBareName(name, 5);
    assert name[5..] == ".PNG";
    ToLowerSamples();
  }

  /** "payload.exe" is a bare name whose lower-cased extension is ".exe". */
  lemma ExecutableName(name: string)
    requires name == "payload.exe"
    ensures ExtensionOf(name) == ".exe"
  {
    ExtensionOfBareName(name, 7);
    assert name[7..] == ".exe";
    ToLowerSamples();
  }

  /**
   * Case does not matter to the gate: "image.PNG" passes it and is stored
   * under its own name.
   */
  lemma UploadAcceptsMixedCase(d: Directory, name: string, content: seq<byte>)
    requires name == "image.PNG" && content != []
    ensures Upload(d, Some(FormFile(name, content)), None) ==
              Outcome(Ok(Uploaded(UploadedMessage, AssetUrl(name))), d[name := content])
  {
    MixedCaseName(name);
    PngIsAllowed(ExtensionOf(name));
    UploadStores(d, FormFile(name, content), None);
  }

  /** A stored "image.PNG" is served as "image/png". */
  lemma MixedCaseServedAsPng(d: Directory, name: string)
    requires name == "image.PNG" && name in d
    ensures Fetch(d, name) == Ok(PhysicalFile(d[name], "image/png"))
  {
    MixedCaseName(name);
  }

  /** "payload.exe" is refused and creates nothing. */
  lemma UploadRejectsExecutable(d: Directory, name: string, content: seq<byte>)
    requires name == "payload.exe" && content != []
    ensures Upload(d, Some(FormFile(name, content)), None) == Outcome(BadRequest(TypeNotAllowedMessage), d)
  {
    ExecutableName(name);
    ExecutableIsRefused(ExtensionOf(name));
    UploadRejectsDisallowedType(d, FormFile(name, content), None);
  }

  // ----- Fetch -----

  /**
   * Fetch finds exactly the stored files: an absent sanitised name gives
   * NotFound, a present one its bytes and the content type of its
   * extension.
   */
  lemma FetchFindsStoredFiles(d: Directory, filename: string)
    ensures var name := GetFileName(filename);
      && (Fetch(d, filename) == NotFound <==> name !in d)
      && (name in d ==> Fetch(d, filename).body.content == d[name])
      && (name in d && IsAllowedExtension(ExtensionOf(filename)) ==>
            Fetch(d, filename).body.contentType != DefaultContentType)
  {
    var name := GetFileName(filename);
    GateAgreesWithSanitisedName(filename);
    AllowListMatchesContentTypes(ExtensionOf(name));
  }

  // ----- Delete -----

  /**
   * Delete removes exactly the stored file under the sanitised name when it
   * is there and the removal does not fail; otherwise nothing changes.
   */
  lemma DeleteRemovesOnlyThatFile(d: Directory, filename: string, fault: bool)
    ensures var o := Delete(d, filename, fault);
      var name := GetFileName(filename);
      && (o.response == NotFound <==> name !in d)
      && (o.response.Ok? <==> name in d && !fault)
      && (o.response.Ok? ==>
            && o.response.body.message == DeletedMessage
            && o.after.Keys == d.Keys - {name}
            && forall other :: other in o.after ==> o.after[other] == d[other])
      && (!o.response.Ok? ==> o.after == d)
  {
  }

  /** Deleting keeps every stored name a plain file name. */
  lemma DeleteKeepsDirectoryValid(d: Directory, filename: string, fault: bool)
    requires ValidDirectory(d)
    ensures ValidDirectory(Delete(d, filename, fault).after)
  {
  }

  /** After a successful delete, fetching the name and deleting it again both give NotFound. */
  lemma DeleteThenFetchAndDelete(d: Directory, filename: string, fault: bool)
    requires Delete(d, filename, false).response.Ok?
    ensures var after := Delete(d, filename, false).after;
      && Fetch(after, filename) == NotFound
      && Delete(after, filename, fault) == Outcome(NotFound, after)
  {
  }

  // ----- List -----

  /** A listing names no file twice, so it has one entry per stored file. */
  lemma ListingHasOneEntryPerFile(items: seq<AssetInfo>, d: Directory, creationTime: string -> Timestamp)
    requires IsListing(items, d, creationTime)
    ensures |items| == |d|
    ensures d == map[] ==> items == []
  {
    DistinctFilenamesCount(items);
    assert |d| == |d.Keys|;
  }

  lemma {:induction false} DistinctFilenamesCount(items: seq<AssetInfo>)
    requires forall i, j :: 0 <= i < j < |items| ==> items[i].filename != items[j].filename
    ensures |Filenames(items)| == |items|
  {
    if items != [] {
      var rest := items[..|items| - 1];
      var last := items[|items| - 1];
      DistinctFilenamesCount(rest);
      assert Filenames(items) == Filenames(rest) + {last.filename};
      assert last.filename !in Filenames(rest);
    }
  }

  /**
   * Every listed entry points at a stored file: the URL's tail is the
   * entry's name, and fetching that name serves bytes of the listed size.
   */
  lemma ListedAssetsAreFetchable(items: seq<AssetInfo>, d: Directory, creationTime: string -> Timestamp, i: int)
    requires ValidDirectory(d) && IsListing(items, d, creationTime) && 0 <= i < |items|
    ensures var entry := items[i];
      var name := entry.url[|AssetRoute|..];
      && name == entry.filename
      && Fetch(d, name).Ok?
      && |Fetch(d, name).body.content| == entry.size
  {
    BareNameIsFileName(items[i].filename);
  }

  /** Appending an entry adds its name to the listed names. */
  lemma FilenamesOfAppend(items: seq<AssetInfo>, item: AssetInfo)
    ensures Filenames(items + [item]) == Filenames(items) + {item.filename}
  {
    var extended := items + [item];
    assert extended[|items|] == item;
    forall name | name in Filenames(extended)
      ensures name in Filenames(items) + {item.filename}
    {
      var i :| 0 <= i < |extended| && extended[i].filename == name;
      if i < |items| {
        assert items[i] == extended[i];
      }
    }
    forall name | name in Filenames(items)
      ensures name in Filenames(extended)
    {
      var i :| 0 <= i < |items| && items[i].filename == name;
      assert extended[i] == items[i];
    }
  }

  /**
   * Visiting one more file extends a partial listing by that file's entry.
   */
  lemma ListingStep(items: seq<AssetInfo>, d: Directory, remaining: set<string>, creationTime: string -> Timestamp, name: string)
    requires ListsAllBut(items, d, remaining, creationTime) && remaining <= d.Keys && name in remaining
    ensures ListsAllBut(items + [Describe(name, d[name], creationTime(name))], d, remaining - {name}, creationTime)
  {
    var entry := Describe(name, d[name], creationTime(name));
    FilenamesOfAppend(items, entry);
    forall i | 0 <= i < |items|
      ensures items[i].filename != name
    {
      assert items[i].filename in Filenames(items);
    }
  }
}
