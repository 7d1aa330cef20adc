/** The request handlers of `app/routes.py`. Each runs its guard checks against the bucket
    and then changes it; what FastAPI would send back is a `Response`. */
module Routes {
  import opened Errors
  import opened Clock
  import opened Models
  import opened Utilities

  datatype Response =
    | Name(name: string)                     // a `str` body: the name the file is stored under
    | Described(metadata: Metadata)          // a `Metadata` body
    | Attachment(content: seq<byte>, mediaType: string, disposition: string)
    | Message(text: string)                  // a `{'message': ...}` body
    | HttpError(status: int, detail: string) // an `HTTPException` the handler raises
    | Raised(error: Error)                   // an exception that escapes the handler

  const AliveMessage: string := "The Bucket is up and running"

  /** `api_is_alive()`. */
  function ApiIsAlive(): Response
  {
    Message(AliveMessage)
  }

  /** The name `upload_file` stores under: the declared name, or the content-derived one. */
  function ChosenName(remaining: seq<byte>, filename: string, unique: bool,
                      sha256: seq<byte> -> Digest, clock: DateTime): Result<string>
  {
    if unique then UniqueFilenameOf(remaining, filename, sha256, clock) else Ok(filename)
  }

  /** The end of a successful `try` block, given what `file_metadata` returned: the metadata
      when asked for (a failure there becomes a 400 carrying `failure`), otherwise the name. */
  function Reply(meta: Result<Metadata>, name: string, metadata: bool, failure: string): Response
  {
    if !metadata then Name(name)
    else match meta
      case Ok(m) => Described(m)
      case Err(_) => HttpError(400, failure)
  }

  /** Where a read of the stream leaves its position. */
  function EndPos(pos: nat, length: nat): nat
  {
    if pos <= length then length else pos
  }

  /** `POST /bucket/v1/file`: choose the name (raising in unique mode on a bad extension, which
      is outside the `try` and so not turned into a 400), refuse an empty name with 400 and an
      existing one with 409, else write and reply. In unique mode the hash has rewound the
      stream, so the whole content is stored. */
  method UploadFile(bucket: Bucket, file: Upload, unique: bool, metadata: bool,
                    sha256: seq<byte> -> Digest, clock: DateTime) returns (r: Response)
    modifies bucket, file
    ensures var chosen := ChosenName(old(file.Remaining()), file.filename, unique, sha256, clock);
      var refused := chosen.Err? || chosen.value == "" || chosen.value in old(bucket.files);
      && (chosen.Err? ==> r == Raised(chosen.error))
      && (chosen == Ok("") ==> r == HttpError(400, "No file uploaded!"))
      && (chosen.Ok? && chosen.value != "" && chosen.value in old(bucket.files) ==>
            r == HttpError(409, "File " + chosen.value + " already exists!"))
      && (refused ==> bucket.files == old(bucket.files))
      && (refused ==> file.pos == if unique then 0 else old(file.pos))
      && (!refused ==>
            && bucket.files == old(bucket.files)[chosen.value :=
                                   if unique then file.content else old(file.Remaining())]
            && file.pos == EndPos(if unique then 0 else old(file.pos), |file.content|)
            && r == Reply(bucket.FileMetadataAsWritten(file, chosen.value), chosen.value,
                          metadata, "Failed to store file " + chosen.value + "!")
            && r == if metadata then HttpError(400, "Failed to store file " + chosen.value + "!")
                    else Name(chosen.value))
  {
    ghost var rem := file.Remaining();
    ghost var files0 := bucket.files;
    var chosen: Result<string>;
    if unique {
      chosen := UniqueFilename(file, sha256, clock);
    } else {
      chosen := Ok(FileName(file));
    }
    assert chosen == ChosenName(rem, file.filename, unique, sha256, clock);
    assert bucket.files == files0;
    if chosen.Err? {
      return Raised(chosen.error);
    }
    var filename := chosen.value;
    if filename == "" {
      return HttpError(400, "No file uploaded!");
    }
    var filepath := FilePath(filename);
    if bucket.FileExists(filepath) {
      return HttpError(409, "File " + filename + " already exists!");
    }
    bucket.FileToBucket(file, filepath);
    if metadata {
      var meta := bucket.FileMetadataAsWritten(file, filename);
      match meta {
        case Ok(m) => r := Described(m);
        case Err(_) => r := HttpError(400, "Failed to store file " + filename + "!");
      }
    } else {
      r := Name(filename);
    }
  }

  /** `PUT /bucket/v1/file/{filename}`: 404 when the name is absent, else overwrite its bytes
      with the rest of the upload stream and reply. */
  method UpdateFile(bucket: Bucket, filename: string, file: Upload, metadata: bool)
    returns (r: Response)
    modifies bucket, file
    ensures filename !in old(bucket.files) ==>
      && r == HttpError(404, "File " + filename + " not found!")
      && bucket.files == old(bucket.files) && file.pos == old(file.pos)
    ensures filename in old(bucket.files) ==>
      && bucket.files == old(bucket.files)[filename := old(file.Remaining())]
      && bucket.files.Keys == old(bucket.files.Keys)
      && file.pos == EndPos(old(file.pos), |file.content|)
      && r == Reply(bucket.FileMetadataAsWritten(file, filename), filename, metadata,
                    "Failed to updated file " + filename + "!")
      && r == if metadata then HttpError(400, "Failed to updated file " + filename + "!")
              else Name(filename)
  {
    var filepath := FilePath(filename);
    if !bucket.FileExists(filepath) {
      return HttpError(404, "File " + filename + " not found!");
    }
    bucket.FileToBucket(file, filepath);
    if metadata {
      var meta := bucket.FileMetadataAsWritten(file, filename);
      match meta {
        case Ok(m) => r := Described(m);
        case Err(_) => r := HttpError(400, "Failed to updated file " + filename + "!");
      }
    } else {
      r := Name(filename);
    }
  }

  /** `GET /bucket/v1/file/{filename}`: 404 when absent, else exactly the stored bytes as an
      attachment carrying the name. Nothing is changed. */
  method GetFile(bucket: Bucket, filename: string) returns (r: Response)
    ensures filename !in bucket.files ==> r == HttpError(404, "File " + filename + " not found")
    ensures filename in bucket.files ==>
      r == Attachment(bucket.files[filename], "application/octet-stream",
                      "attachment; filename=" + filename)
  {
    var filepath := FilePath(filename);
    if !bucket.FileExists(filepath) {
      return HttpError(404, "File " + filename + " not found");
    }
    var content := bucket.FileFromBucket(filepath);
    r := Attachment(content.value, "application/octet-stream", "attachment; filename=" + filename);
  }

  /** `DELETE /bucket/v1/file/{filename}`: 404 when absent, else remove that one entry. */
  method DeleteFile(bucket: Bucket, filename: string) returns (r: Response)
    modifies bucket
    ensures filename !in old(bucket.files) ==>
      r == HttpError(404, "File " + filename + " not found!") && bucket.files == old(bucket.files)
    ensures filename in old(bucket.files) ==>
      && r == Message("File " + filename + " deleted successfully")
      && bucket.files == old(bucket.files) - {filename}
  {
    var filepath := FilePath(filename);
    if !bucket.FileExists(filepath) {
      return HttpError(404, "File " + filename + " not found!");
    }
    var removed := bucket.RemoveFromBucket(filepath);
    r := Message("File " + filename + " deleted successfully");
  }
}
