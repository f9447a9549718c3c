/**
 * The asset controller over its uploads directory. The directory is a map
 * from the names of the regular files directly under the assets directory
 * to their bytes; each endpoint works on full paths below that directory,
 * as the controller does, and is proved to behave as the matching function
 * of AssetService.
 */
module StaticAssetsApi {
  import opened PathApi
  import opened InvariantCulture
  import opened MediaTypes
  import opened AssetService

  class AssetsController {
    /** The plugin's assets directory, fixed when the plugin starts. */
    const assetsDirectory: string
    /** The regular files directly under the assets directory. */
    var uploads: Directory

    ghost predicate Valid()
      reads this
    {
      assetsDirectory != "" && ValidDirectory(uploads)
    }

    /** File.Exists: some stored file lives at exactly this path. */
    predicate FileExists(path: string)
      reads this
    {
      exists name :: name in uploads && Combine(assetsDirectory, name) == path
    }

    /** The plugin sets the assets directory and finds the files already in it. */
    constructor (assetsDirectory: string, existing: Directory)
      requires assetsDirectory != "" && ValidDirectory(existing)
      ensures Valid()
      ensures this.assetsDirectory == assetsDirectory && uploads == existing
    {
      this.assetsDirectory := assetsDirectory;
      uploads := existing;
    }

    /**
     * The path of a sanitised name exists exactly when the name is stored;
     * "" names the directory itself, which is no regular file.
     */
    lemma ExistsExactlyWhenStored(name: string)
      requires Valid() && HasNoSeparator(name)
      ensures FileExists(Combine(assetsDirectory, name)) <==> name in uploads
    {
      var path := Combine(assetsDirectory, name);
      if FileExists(path) {
        var k :| k in uploads && Combine(assetsDirectory, k) == path;
        CombineBareName(assetsDirectory, k);
        if name != "" {
          CombineInjective(assetsDirectory, k, name);
        }
      }
    }

    /**
     * GET list: every regular file of the directory, one entry each with
     * its name, size, creation time and URL, or a server error when the
     * directory cannot be read.
     */
    method GetAssets(readFault: bool, creationTime: string -> Timestamp) returns (r: Response)
      requires Valid()
      ensures readFault ==> r == ServerError(ListErrorMessage)
      ensures !readFault ==> r.Ok? && r.body.Assets? && IsListing(r.body.items, uploads, creationTime)
    {
      if readFault {
        return ServerError(ListErrorMessage);
      }
      var files := CombineAll(assetsDirectory, uploads.Keys);
      var pending := files;
      var assets: seq<AssetInfo> := [];
      ghost var remaining := uploads.Keys;
      while pending != {}
        invariant remaining <= uploads.Keys && AreBareNames(remaining)
        invariant pending == CombineAll(assetsDirectory, remaining)
        invariant ListsAllBut(assets, uploads, remaining, creationTime)
        decreases pending
      {
        var file :| file in pending;
        var filename := GetFileName(file);
        CombineAllMember(assetsDirectory, remaining, file);
        var info := Describe(filename, uploads[filename], creationTime(filename));
        CombineAllRemove(assetsDirectory, remaining, filename);
        ListingStep(assets, uploads, remaining, creationTime, filename);
        assets := assets + [info];
        pending := pending - {file};
        remaining := remaining - {filename};
      }
      CombineAllEmpty(assetsDirectory, remaining);
      r := Ok(Assets(assets));
    }

    /**
     * POST upload: the empty-file and extension checks, then the file is
     * created or overwritten under its sanitised name below the assets
     * directory, unless the write fails.
     */
    method UploadAsset(file: Option<FormFile>, fault: Option<string>) returns (r: Response)
      requires Valid()
      modifies this
      ensures Valid()
      ensures Outcome(r, uploads) == Upload(old(uploads), file, fault)
    {
      if file.None? || |file.value.content| == 0 {
        return BadRequest(NoFileMessage);
      }
      var extension := ToLowerInvariant(GetExtension(file.value.fileName));
      GateAgreesWithSanitisedName(file.value.fileName);
      if !IsAllowedExtension(extension) {
        return BadRequest(TypeNotAllowedMessage);
      }
      var fileName := GetFileName(file.value.fileName);
      AllowedNameIsStoredName(fileName);
      var filePath := Combine(assetsDirectory, fileName);
      if fault.Some? {
        return ServerError(UploadErrorPrefix + fault.value);
      }
      CombineBareName(assetsDirectory, fileName);
      uploads := uploads[GetFileName(filePath) := file.value.content];
      r := Ok(Uploaded(UploadedMessage, AssetUrl(fileName)));
    }

    /**
     * GET asset: the stored bytes at the sanitised name's path, with the
     * content type of that path's extension, or NotFound.
     */
    method GetAsset(filename: string) returns (r: Response)
      requires Valid()
      ensures r == Fetch(uploads, filename)
    {
      var sanitizedFilename := GetFileName(filename);
      var filePath := Combine(assetsDirectory, sanitizedFilename);
      ExistsExactlyWhenStored(sanitizedFilename);
      if !FileExists(filePath) {
        return NotFound;
      }
      var extension := ToLowerInvariant(GetExtension(filePath));
      var contentType := ContentType(extension);
      ExtensionBelowRoot(assetsDirectory, sanitizedFilename);
      CombineBareName(assetsDirectory, sanitizedFilename);
      r := Ok(PhysicalFile(uploads[GetFileName(filePath)], contentType));
    }

    /**
     * DELETE asset: NotFound when no file is at the sanitised name's path,
     * otherwise the file is removed unless the deletion fails.
     */
    method DeleteAsset(filename: string, fault: bool) returns (r: Response)
      requires Valid()
      modifies this
      ensures Valid()
      ensures Outcome(r, uploads) == Delete(old(uploads), filename, fault)
    {
      var sanitizedFilename := GetFileName(filename);
      var filePath := Combine(assetsDirectory, sanitizedFilename);
      ExistsExactlyWhenStored(sanitizedFilename);
      if !FileExists(filePath) {
        return NotFound;
      }
      if fault {
        return ServerError(DeleteErrorMessage);
      }
      CombineBareName(assetsDirectory, sanitizedFilename);
      uploads := uploads - {GetFileName(filePath)};
      r := Ok(Deleted(DeletedMessage));
    }
  }
}
