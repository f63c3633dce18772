/** Supporting documents: the upload check (`ValidateFileUpload`), the name a
    saved upload receives (a GUID followed by the original extension) and the
    content type a download is served with (`GetContentType`). Only names and
    sizes are modelled; the bytes and the file system are not. */
module Uploads {
  import opened Results
  import opened Text

  /** 5 MiB: the largest accepted upload, inclusive. */
  const MaxUploadBytes: nat := 5 * 1024 * 1024
  const AllowedExtensions: seq<string> := [".pdf", ".docx", ".xlsx"]
  const SizeError: string := "File size must be less than 5MB."
  const TypeError: string := "Only PDF, DOCX, and XLSX files are allowed."
  const OctetStream: string := "application/octet-stream"

  /** An uploaded file, as far as the workflow looks at it. */
  datatype Upload = Upload(length: nat, fileName: string)

  /** The `(IsValid, ErrorMessage)` pair `ValidateFileUpload` returns. */
  datatype UploadCheck = UploadCheck(isValid: bool, errorMessage: string)

  /** The size is checked first, then the lower-cased extension. A file is
      accepted exactly when it is at most 5 MiB and its extension is one of
      the three allowed ones; an oversized file is refused for its size
      whatever its name. */
  function ValidateFileUpload(file: Upload): (v: UploadCheck)
    ensures v.isValid <==>
              file.length <= MaxUploadBytes && ToLower(GetExtension(file.fileName)) in AllowedExtensions
    ensures v.isValid ==> v.errorMessage == ""
    ensures !v.isValid ==> v.errorMessage == (if file.length > MaxUploadBytes then SizeError else TypeError)
  {
    if file.length > MaxUploadBytes then UploadCheck(false, SizeError)
    else if ToLower(GetExtension(file.fileName)) !in AllowedExtensions then UploadCheck(false, TypeError)
    else UploadCheck(true, "")
  }

  /** `Guid.ToString()`: hexadecimal digits and hyphens. */
  predicate IsGuidText(g: string) {
    forall i | 0 <= i < |g| :: g[i] == '-' || '0' <= g[i] <= '9' || 'a' <= g[i] <= 'f'
  }

  /** The name a saved upload is stored under. */
  function SavedFileName(guid: string, original: string): string {
    guid + GetExtension(original)
  }

  /** The document name a new claim records: the saved upload's name when a
      non-empty file came with the claim, otherwise none. */
  function StoredDocument(upload: Option<Upload>, guid: string): string {
    if upload.Some? && upload.value.length > 0 then SavedFileName(guid, upload.value.fileName) else ""
  }

  /** `GetContentType`: the MIME type for the lower-cased extension. A file
      is served as a generic binary exactly when its extension is not one of
      the three an upload may have. */
  function GetContentType(fileName: string): (t: string)
    ensures t == OctetStream <==> ToLower(GetExtension(fileName)) !in AllowedExtensions
  {
    var e := ToLower(GetExtension(fileName));
    if e == ".pdf" then "application/pdf"
    else if e == ".docx" then "application/vnd.openxmlformats-officedocument.wordprocessingml.document"
    else if e == ".xlsx" then "application/vnd.openxmlformats-officedocument.spreadsheetml.sheet"
    else OctetStream
  }

  lemma {:induction false} NoDotNoExtension(path: string, i: nat)
    requires i <= |path|
    requires forall k | 0 <= k < i :: path[k] != '.'
    ensures ExtensionScan(path, i) == ""
    decreases i
  {
    if i > 0 {
      NoDotNoExtension(path, i - 1);
    }
  }

  /** A saved upload keeps the extension of the original file. */
  lemma SavedNameKeepsExtension(guid: string, original: string)
    requires IsGuidText(guid)
    ensures GetExtension(SavedFileName(guid, original)) == GetExtension(original)
  {
    var e := GetExtension(original);
    ExtensionIsSuffix(original);
    if e == [] {
      assert guid + e == guid;
      NoDotNoExtension(guid, |guid|);
    } else {
      ExtensionOfSuffix(guid, e);
    }
  }

  /** Every upload that passes the check is later served with a specific
      content type, never as `application/octet-stream`. */
  lemma AcceptedUploadHasKnownType(file: Upload, guid: string)
    requires ValidateFileUpload(file).isValid
    ensures GetContentType(SavedFileName(guid, file.fileName)) != OctetStream
  {
    var e := GetExtension(file.fileName);
    ExtensionIsSuffix(file.fileName);
    assert |ToLower(e)| > 0;
    ExtensionOfSuffix(guid, e);
  }

  /** A name without directory separators is its own file name. */
  lemma {:induction false} PlainNameIsFileName(path: string, i: nat)
    requires i <= |path|
    requires forall k | 0 <= k < |path| :: !IsDirectorySeparator(path[k])
    ensures FileNameScan(path, i) == path
    decreases i
  {
    if i > 0 {
      PlainNameIsFileName(path, i - 1);
    }
  }

  /** Downloading a saved upload offers it under its stored name. */
  lemma SavedNameIsFileName(guid: string, original: string)
    requires IsGuidText(guid)
    ensures GetFileName(SavedFileName(guid, original)) == SavedFileName(guid, original)
  {
    var e := GetExtension(original);
    ExtensionIsSuffix(original);
    var p := guid + e;
    forall k | 0 <= k < |p| ensures !IsDirectorySeparator(p[k]) {
      if k >= |guid| {
        assert p[k] == e[k - |guid|];
      }
    }
    PlainNameIsFileName(p, |p|);
  }
}
