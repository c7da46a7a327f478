/** `UploadService.saveFile`: the checks an uploaded image must pass and the
    name and URL it is stored under. */
module Upload {
  import opened Common
  import Text

  const AllowedMimeTypes: seq<string> := ["image/jpeg", "image/png", "image/jpg", "image/gif", "image/webp"]
  /** 5 MB, used when MAX_FILE_SIZE is not configured. */
  const DefaultMaxFileSize: nat := 5242880
  const UrlPrefix := "/uploads/"
  const NoFileMessage := "Aucun fichier fourni"
  const UnsupportedTypeMessage := "Type de fichier non autorisé. Formats acceptés: JPEG, PNG, GIF, WEBP"

  /** `maxSizeMb` is the JavaScript rendering of `maxSize / 1024 / 1024`. */
  function TooLargeMessage(maxSizeMb: string): string {
    "Fichier trop volumineux. Taille max: " + maxSizeMb + "MB"
  }

  /** What the service reads of the multipart upload. */
  datatype UploadedFile = UploadedFile(mimetype: string, size: nat)

  datatype SavedFile = SavedFile(url: string, filename: string)

  /** `configService.get('MAX_FILE_SIZE', 5242880)`. */
  function MaxFileSize(configured: Option<nat>): nat {
    Overwrite(DefaultMaxFileSize, configured)
  }

  /** `${timestamp}-${randomString}${extension}` */
  function FileName(timestamp: nat, randomText: string, extension: string): string {
    Text.NatToString(timestamp) + "-" + randomText + extension
  }

  /** `saveFile` without the disk write: presence, then MIME type, then size;
      the first failing check decides the error. `timestamp` is `Date.now()`,
      `randomText` the base-36 random string, `extension` the original
      name's extension. */
  function SaveFile(file: Option<UploadedFile>, configuredMax: Option<nat>, maxSizeMb: string,
                    timestamp: nat, randomText: string, extension: string): (r: Result<SavedFile>)
    ensures r.Ok? ==> r.value.filename == FileName(timestamp, randomText, extension)
    ensures r.Ok? ==> r.value.url == UrlPrefix + r.value.filename
    ensures r.Ok? ==> |r.value.filename| <= |r.value.url|
                      && r.value.url[|r.value.url| - |r.value.filename|..] == r.value.filename
  {
    if file.None? then Err(BadRequest(NoFileMessage))
    else if file.value.mimetype !in AllowedMimeTypes then Err(BadRequest(UnsupportedTypeMessage))
    else if file.value.size > MaxFileSize(configuredMax) then Err(BadRequest(TooLargeMessage(maxSizeMb)))
    else
      var name := FileName(timestamp, randomText, extension);
      Ok(SavedFile(UrlPrefix + name, name))
  }

  /** A file is accepted exactly when it is present, of an allowed type and
      no larger than the limit; otherwise the first failing check decides. */
  lemma SaveFileChecksInOrder(file: Option<UploadedFile>, configuredMax: Option<nat>, maxSizeMb: string,
                              timestamp: nat, randomText: string, extension: string)
    ensures var r := SaveFile(file, configuredMax, maxSizeMb, timestamp, randomText, extension);
      && (r.Ok? <==> file.Some? && file.value.mimetype in AllowedMimeTypes
                     && file.value.size <= MaxFileSize(configuredMax))
      && (file.None? ==> r == Err(BadRequest(NoFileMessage)))
      && (file.Some? && file.value.mimetype !in AllowedMimeTypes ==> r == Err(BadRequest(UnsupportedTypeMessage)))
      && ((file.Some? && file.value.mimetype in AllowedMimeTypes && file.value.size > MaxFileSize(configuredMax))
          ==> r == Err(BadRequest(TooLargeMessage(maxSizeMb))))
  {
  }

  /** Without configuration, a file of exactly 5242880 bytes passes the size
      check and one byte more does not. */
  lemma DefaultLimitIsInclusive(mimetype: string, maxSizeMb: string, timestamp: nat, randomText: string, extension: string)
    requires mimetype in AllowedMimeTypes
    ensures SaveFile(Some(UploadedFile(mimetype, 5242880)), None, maxSizeMb, timestamp, randomText, extension).Ok?
    ensures SaveFile(Some(UploadedFile(mimetype, 5242881)), None, maxSizeMb, timestamp, randomText, extension)
         == Err(BadRequest(TooLargeMessage(maxSizeMb)))
  {
  }

  /** The stored name starts with the timestamp's digits up to its first '-',
      so the upload time can be read back from the name; the random text
      and the extension follow. */
  lemma FileNameRecordsTimestamp(timestamp: nat, randomText: string, extension: string)
    ensures var name := FileName(timestamp, randomText, extension);
      var k := |Text.NatToString(timestamp)|;
      && k < |name| && name[k] == '-'
      && (forall j :: 0 <= j < k ==> Text.IsDigit(name[j]) && name[j] != '-')
      && Text.ParseNat(name[..k]) == timestamp
      && name[k + 1..] == randomText + extension
  {
    var digits := Text.NatToString(timestamp);
    var name := FileName(timestamp, randomText, extension);
    assert name[..|digits|] == digits;
    assert name[|digits| + 1..] == randomText + extension;
    Text.ParseNatToString(timestamp);
  }
}
