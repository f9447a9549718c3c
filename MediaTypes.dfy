/**
 * The two extension tables of the asset controller: the upload allow-list
 * and the content type served for each extension. Both are keyed by
 * lower-cased extensions with their leading '.'.
 */
module MediaTypes {
  import opened PathApi
  import opened InvariantCulture

  /** The sixteen extensions an upload may have. */
  const AllowedExtensions: seq<string> := [
    // Images
    ".jpg", ".jpeg", ".png", ".gif", ".svg", ".webp",
    // Videos
    ".mp4", ".webm", ".ogv", ".mov",
    // Web resources
    ".css", ".js", ".json", ".txt", ".html", ".htm"
  ]

  /** The content type of files whose extension has no entry of its own. */
  const DefaultContentType: string := "application/octet-stream"

  /** Enumerable.Contains: a linear search of the list for the value. */
  predicate Contains(list: seq<string>, value: string) {
    list != [] && (list[0] == value || Contains(list[1..], value))
  }

  /** The search finds exactly the members of the list. */
  lemma {:induction false} ContainsIsMembership(list: seq<string>, value: string)
    ensures Contains(list, value) <==> value in list
  {
    if list != [] {
      ContainsIsMembership(list[1..], value);
      assert list == [list[0]] + list[1..];
    }
  }

  /** The allow-list membership test of an upload. */
  predicate IsAllowedExtension(extension: string) {
    Contains(AllowedExtensions, extension)
  }

  /** The content type served for a (lower-cased) extension. */
  function ContentType(extension: string): (contentType: string)
    ensures contentType != ""
    ensures contentType != DefaultContentType ==> |extension| >= 2 && extension[0] == '.'
  {
    match extension
    // Images
    case ".jpg" | ".jpeg" => "image/jpeg"
    case ".png" => "image/png"
    case ".gif" => "image/gif"
    case ".svg" => "image/svg+xml"
    case ".webp" => "image/webp"
    // Videos
    case ".mp4" => "video/mp4"
    case ".webm" => "video/webm"
    case ".ogv" => "video/ogg"
    case ".mov" => "video/quicktime"
    // Web resources
    case ".css" => "text/css"
    case ".js" => "application/javascript"
    case ".json" => "application/json"
    case ".txt" => "text/plain"
    case ".html" | ".htm" => "text/html"
    // Default
    case _ => DefaultContentType
  }

  /** Each entry of the allow-list has a content type of its own. */
  lemma AllowedEntriesHaveContentTypes()
    ensures forall i :: 0 <= i < |AllowedExtensions| ==> ContentType(AllowedExtensions[i]) != DefaultContentType
  {
  }

  /** Only the extensions of the allow-list have a content type of their own. */
  lemma ContentTypedExtensionsAreAllowed(extension: string)
    requires ContentType(extension) != DefaultContentType
    ensures extension in AllowedExtensions
  {
  }

  /**
   * The two tables agree: an extension has a content type of its own exactly
   * when it is on the upload allow-list.
   */
  lemma AllowListMatchesContentTypes(extension: string)
    ensures IsAllowedExtension(extension) <==> ContentType(extension) != DefaultContentType
  {
    ContainsIsMembership(AllowedExtensions, extension);
    if extension in AllowedExtensions {
      var i :| 0 <= i < |AllowedExtensions| && AllowedExtensions[i] == extension;
      AllowedEntriesHaveContentTypes();
    } else if ContentType(extension) != DefaultContentType {
      ContentTypedExtensionsAreAllowed(extension);
    }
  }

  /**
   * Every allowed extension has the form GetExtension yields: a '.' and at
   * least one more character.
   */
  lemma AllowedExtensionShape(extension: string)
    requires IsAllowedExtension(extension)
    ensures |extension| >= 2 && extension[0] == '.'
  {
    AllowListMatchesContentTypes(extension);
  }

  /** The allow-list admits ".png". */
  lemma PngIsAllowed(extension: string)
    requires extension == ".png"
    ensures IsAllowedExtension(extension)
  {
    ContainsIsMembership(AllowedExtensions, extension);
    assert AllowedExtensions[2] == extension;
  }

  /** The allow-list refuses ".exe". */
  lemma ExecutableIsRefused(extension: string)
    requires extension == ".exe"
    ensures !IsAllowedExtension(extension)
  {
    ContainsIsMembership(AllowedExtensions, extension);
  }

  /** Sample entries of the content-type table. */
  lemma ContentTypeSamples()
    ensures ContentType(".jpg") == ContentType(".jpeg") == "image/jpeg"
    ensures ContentType(".ogv") == "video/ogg"
    ensures ContentType(".htm") == ContentType(".html") == "text/html"
    ensures ContentType(".exe") == ContentType("") == DefaultContentType
    ensures ContentType(".PNG") == DefaultContentType
  {
  }
}
