# Bucket: a Dafny model of the file store behind the HTTP API

The bucket is a small FastAPI service that keeps uploaded files in one flat directory.
This project models the two parts of it that have real logic and proves properties about
them: the storage and naming helpers of `app/utilities.py` and the four request handlers
of `app/routes.py`.

- **Store.** The storage directory is a `Utilities.Bucket` object. Its one field,
  `files: map<string, seq<byte>>`, maps each file name to its bytes. Joining a name onto
  the directory (`file_path`) is the identity on keys. `file_exists` is `FileExists`, which
  holds exactly when the name is a key. `file_to_bucket` and `remove_from_bucket` are
  methods that update the map in place. `file_from_bucket`, `file_size` and
  `file_metadata` are functions that read it.
- **Uploads.** FastAPI's `UploadFile` is a `Utilities.Upload` object. It holds the
  declared `filename` and `contentType`, the spooled file's `content`, and a mutable read
  position `pos`. `Read` models `file.file.read()` and `Rewind` models
  `file.file.seek(0)`. So `file_to_blob`, `file_hash`, `unique_filename` and
  `file_to_bucket` move and restore the position as the Python code does.
- **Naming.** `os.path.basename` (`Text.Basename`) and `str.split('.')` (`Text.Split`)
  are modelled from their Python definitions. `file_extension` unpacks the split into two
  names, and any other number of parts raises `ValueError`. `now()` formats a clock
  reading (`Clock.DateTime`) with `%Y%m%dT%H%M%S`. `unique_filename` joins the digest, the
  timestamp and the extension with dots. SHA-256 is a parameter `sha256: seq<byte> ->
  Digest`, where a `Digest` is 64 lower-case hex characters. The clock is a `DateTime`
  parameter.
- **Handlers.** `Routes.UploadFile`, `UpdateFile`, `GetFile` and `DeleteFile` run the
  same guard checks in the same order as the Python handlers, then change the bucket.
  They return a `Routes.Response`:
  - `HttpError(status, detail)` is an `HTTPException`, with the source's status codes and
    messages.
  - `Raised(error)` is an exception that escapes the handler. FastAPI answers it with 500.
  - The other constructors are the success bodies.
- **Scenarios.** The `Scenarios` module holds client methods. Each one proves what a
  sequence of calls does, using only the handlers' contracts. Examples: upload then get,
  upload twice, delete then get, two unique uploads.

### Behaviour of the code a reader might not expect

- The extension is not "the text after the last dot". A basename with zero dots, or with
  two or more, raises `ValueError` from the two-name unpacking (`FileExtension`).
- In unique mode this error is raised at `app/routes.py:67`, outside the `try`. It is
  therefore not turned into a 400 (`UploadFile`, `UniqueUploadBadName`).
- The timestamp has one-second resolution, not sub-second. The same file uploaded twice
  in unique mode within one second gets the same name, and the second upload answers 409
  (`SameSecondSameName`, `UniqueUploadsInOneSecond`).
- Names are not checked for path separators. Writes are plain overwrites, not
  write-and-rename.
- `file_metadata` never returns a record (see "## Findings"). Every POST or PUT with
  `metadata=true` that passes the guards answers 400 after the file has already been
  stored (`UploadWithMetadata`, `UniqueUploadWithMetadata`).
- Even with that fixed, `file_metadata` does not recompute a digest or report a
  modification time. It takes `size` from the entry named by the upload's declared name,
  not from the name the file was saved under (`FileSize`).

## Model

| member | source | states |
|---|---|---|
| `Text.Basename` | app/utilities.py:73 | the basename of a path contains no '/', is a suffix of the path, and is preceded by a '/' whenever it is shorter than the path |
| `Text.BasenameAfterDirectory` | app/utilities.py:73 | the basename of a directory part followed by a slash-free name is that name |
| `Text.Split` | app/utilities.py:73 | `split('.')` gives one more part than the string has dots, and no part contains a dot |
| `Text.JoinSplit` | app/utilities.py:73 | joining the parts of a split with the separator gives back the original string |
| `Text.CountConcat` | app/utilities.py:96 | dot counts add up over concatenation |
| `Text.CountZero` | app/utilities.py:96 | a string has dot count zero exactly when it contains no dot |
| `Text.SplitTwo` | app/utilities.py:73 | a string with exactly one separator and the separator absent from both sides splits into exactly those two sides |
| `Clock.Digits` | app/utilities.py:68 | a strftime numeric field has exactly its width in characters, all decimal digits |
| `Clock.DigitsInjective` | app/utilities.py:68 | numbers below 10^width have distinct zero-padded renderings |
| `Models.NewMetadata` | app/models.py:33-39 | building `Metadata` succeeds exactly when every field without a default (all but `modified_time`) is supplied; otherwise it raises `ValidationError`; the supplied values land in their fields, a supplied `modified_time` included, and an omitted `modified_time` is None |
| `Utilities.Upload.constructor` | app/utilities.py:25 | a new upload carries the declared name, type and bytes, with its position at the start |
| `Utilities.Upload.Read` | app/utilities.py:79 | `read()` returns the bytes from the position to the end and leaves the stream at its end |
| `Utilities.Upload.Rewind` | app/utilities.py:80 | `seek(0)` puts the position back at the start, so the whole content is readable again |
| `Utilities.Bucket.constructor` | app/utilities.py:42 | a bucket starts with exactly the given directory contents |
| `Utilities.Bucket.FileExists` | app/utilities.py:45-46 | a path exists exactly when it is a key of the store (definitional: `os.path.exists` on a flat directory) |
| `Utilities.Bucket.FileToBucket` | app/utilities.py:49-52 | the store maps the path to the upload's remaining bytes, replacing any earlier content; every other key keeps its value; the stream ends at end-of-content |
| `Utilities.Bucket.FileFromBucket` | app/utilities.py:55-58 | reading succeeds exactly when the path exists, returns exactly the stored bytes, and raises `FileNotFoundError` otherwise |
| `Utilities.Bucket.RemoveFromBucket` | app/utilities.py:61-63 | removes exactly that key, leaves every other key unchanged, and raises `FileNotFoundError` when it is absent |
| `Utilities.Bucket.FileSize` | app/utilities.py:84-86 | the size is the stored length of the entry under the upload's declared name, and it fails when that entry is absent |
| `Utilities.Bucket.FileMetadataAsWritten` | app/utilities.py:99-104 | as written, `file_metadata` never returns a record: `FileNotFoundError` when the declared name is absent, `ValidationError` (missing `sha256`) otherwise |
| `Utilities.Bucket.FileMetadata` | app/utilities.py:99-104 | with `sha256=None`, the record has `original` = declared name, `saved_as` = the name given, `type` = declared content type and `size` = the length stored under the declared name; it fails exactly when that entry is absent |
| `Utilities.MetadataOfStoredFile` | app/models.py:37 | for an upload whose declared name is stored, the call as written raises `ValidationError`, while the corrected call returns a record with the stored size |
| `Utilities.FileName` | app/utilities.py:35-37 | the upload's declared name (definitional) |
| `Utilities.FilePath` | app/utilities.py:40-42 | joining a name onto the storage directory gives the key it is stored under, which is the name itself (definitional) |
| `Utilities.Now` | app/utilities.py:66-68 | the timestamp is 15 characters and contains no dot |
| `Utilities.NowInjective` | app/utilities.py:66-68 | two valid clock readings with the same timestamp agree down to the second |
| `Utilities.FileExtension` | app/utilities.py:71-74 | succeeds exactly when the basename has one dot and then returns the text after it (dot- and slash-free, a suffix of the basename just after a '.'); otherwise raises `ValueError` |
| `Utilities.ExtensionOfName` | app/utilities.py:71-74 | for any directory prefix and any dot- and slash-free stem and extension, the extension of `dir/stem.ext` is `ext` |
| `Utilities.UniqueNameShape` | app/utilities.py:94-96 | given a dot-free timestamp, the unique name is never empty and has exactly two more dots than the extension |
| `Utilities.UniqueNameInjective` | app/utilities.py:94-96 | with a fixed-width digest and equal-length timestamps, a unique name determines its digest, timestamp and extension |
| `Utilities.UniqueFilenameOf` | app/utilities.py:94-96 | the value `unique_filename` returns for the bytes a stream yields: the unique name of their digest, the timestamp and the extension, or the extension's `ValueError` (definitional; `UniqueFilename` is proved against it) |
| `Utilities.DistinctSecondsDistinctNames` | app/utilities.py:66-96 | uploads whose clock readings differ in some field down to the second get different unique names, whatever their digests and extensions |
| `Utilities.SameSecondSameName` | app/utilities.py:66-96 | the same bytes read in the same second, with the same extension, get the same unique name |
| `Utilities.FileToBlob` | app/utilities.py:77-81 | returns the bytes from the current position to the end and leaves the position at 0, so the whole content is readable again |
| `Utilities.FileHash` | app/utilities.py:89-91 | the digest is SHA-256 of the blob, so it depends only on the bytes and not on the name or type; the stream is rewound |
| `Utilities.UniqueFilename` | app/utilities.py:94-96 | the result is digest, then `.`, then timestamp, then `.`, then extension; it raises when the extension does; the stream is rewound in every case, because the hash is evaluated first |
| `Routes.ApiIsAlive` | app/routes.py:57-60 | the health message (definitional) |
| `Routes.ChosenName` | app/routes.py:67 | the name `upload_file` stores under: the declared name, or in unique mode the content-derived one or its error (definitional) |
| `Routes.Reply` | app/routes.py:75 | the end of the `try` block: the name when metadata is not asked for, else the record, or the 400 when `file_metadata` raises (definitional; the handlers apply it to the call as written) |
| `Routes.UploadFile` | app/routes.py:64-78 | name chosen first (a unique-mode extension error escapes, store unchanged); empty name gives 400 and existing name 409, both with the store unchanged; otherwise the new entry holds the upload's bytes (the whole content in unique mode), others are unchanged, and the reply is the name, or, with metadata, the 400 "Failed to store file" that the `file_metadata` call as written always ends in, with the new entry kept |
| `Routes.UpdateFile` | app/routes.py:82-93 | absent name gives 404 with store and stream unchanged; otherwise that entry's bytes are overwritten, the set of keys is unchanged, and the reply is the name, or, with metadata, the 400 "Failed to updated file" with the new bytes kept |
| `Routes.GetFile` | app/routes.py:97-104 | absent name gives 404; otherwise exactly the stored bytes, as `application/octet-stream` with `attachment; filename={filename}`; the store is not changed |
| `Routes.DeleteFile` | app/routes.py:108-115 | absent name gives 404 with store unchanged; otherwise exactly that key is removed and the success message is returned |
| `Scenarios.WriteThenRead` | app/utilities.py:49-58 | reading right after writing returns exactly the bytes written, and no other entry changes |
| `Scenarios.RemoveThenRead` | app/utilities.py:55-63 | after removing a name it no longer exists, reading it raises `FileNotFoundError`, and no other entry changes |
| `Scenarios.BlobThenRead` | app/utilities.py:77-81 | after `file_to_blob`, a full read sees the whole content |
| `Scenarios.UploadThenGet` | app/routes.py:67-104 | a new name that is uploaded and then fetched returns the uploaded bytes |
| `Scenarios.UploadTwice` | app/routes.py:70-72 | uploading the same name a second time answers 409 and keeps the first content |
| `Scenarios.UpdateWithoutCreate` | app/routes.py:85-87 | updating a never-created name answers 404, and a GET of it still answers 404 |
| `Scenarios.UpdateThenGet` | app/routes.py:85-104 | an update of an existing name, fetched straight away, returns the new bytes; the set of keys is unchanged |
| `Scenarios.DeleteThenGet` | app/routes.py:100-115 | after a successful delete, GET and a second DELETE both answer 404 |
| `Scenarios.UniqueUpload` | app/routes.py:67-75 | a unique-mode upload of a whole stream is stored under its content-derived name with the full content, or answers 409 when that name is taken |
| `Scenarios.NamesAtTwoSeconds` | app/utilities.py:94-96 | one file read at two different seconds gets, each time, the unique name of its digest, that second's timestamp and its extension, and the two names differ |
| `Scenarios.UniqueUploadsUnderTwoNames` | app/routes.py:67-75 | two unique-mode uploads of one file whose content-derived names are distinct and free are each stored under their own name with the full content |
| `Scenarios.UniqueUploadsAtTwoSeconds` | app/routes.py:67-75 | the same file (bytes and declared name) uploaded twice in unique mode at two different seconds, into a bucket holding neither content-derived name, get two distinct names; the bucket then gains exactly those two entries, each with the full content |
| `Scenarios.UniqueUploadsOfOneFileExample` | app/routes.py:67-75 | a concrete instance: `a.txt` uploaded in unique mode into an empty bucket at 12:00:00 and at 12:00:01 is stored under two different names |
| `Scenarios.UniqueUploadsInOneSecond` | app/routes.py:67-72 | the same file uploaded in unique mode twice within one second answers 409 the second time |
| `Scenarios.UniqueUploadBadName` | app/routes.py:67 | in unique mode a declared name without any dot raises `ValueError` (not a 400) and the store is unchanged |
| `Scenarios.UploadWithMetadata` | app/routes.py:73-78 | a fresh declared name posted with metadata answers 400 "Failed to store file", yet the new entry stays |
| `Scenarios.UniqueUploadWithMetadata` | app/routes.py:73-78 | in unique mode with metadata, the request answers 400 but the new entry under the content-derived name stays |
| `Scenarios.UploadWithIntendedMetadata` | app/routes.py:75 | with the corrected `file_metadata`, a fresh declared name posted with metadata is described by the record carrying that name and the stored size |

## Findings

| source | as written | input that shows it | evidently intended | confidence | as-written member | corrected member |
|---|---|---|---|---|---|---|
| app/models.py:37, app/utilities.py:101-104 | `Metadata` declares `sha256: str \| None` with no default. Pydantic 2 (the version that provides `field_serializer`) therefore makes the field required. `file_metadata` never passes it. Building the record raises `ValidationError`, so every POST or PUT with `metadata=true` answers 400, after the file has been stored. | POST `a.txt` with `metadata=true` into an empty bucket | `sha256` is optional and defaults to None, like `modified_time`, so the record is returned | not executed; high | `Utilities.Bucket.FileMetadataAsWritten` | `Utilities.Bucket.FileMetadata` |

The handlers follow the code as written: with `metadata=true` they always answer 400
(`UploadWithMetadata`). `UploadWithIntendedMetadata` shows the reply the corrected
`FileMetadata` gives.

## Left out

- FastAPI routing, async handlers, `HTTPException` and response objects. These become the
  `Response` datatype. An escaping exception becomes `Raised`; the 500 response FastAPI
  builds from it is not modelled.
- CORS setup and the app factory (`app/app.py`), environment configuration
  (`app/settings.py`), and the Uvicorn and logging bootstrap (`server.py`). These are
  framework wiring. Logging calls are dropped.
- SHA-256 internals. The hash is the `sha256` parameter, a function from bytes to 64 hex
  characters.
- The `utcnow` clock. The reading is the `clock` parameter.
- Now: pads years 1 to 999 to four digits. The C library's `%Y` may print such years
  unpadded, but a running server's clock never reports them.
- Rendering `modified_time` with `UTC_FORMAT` in the `Metadata` serialiser, and pydantic
  type coercion. Of pydantic validation, only the required-field check is modelled.
- Operating-system behaviour of paths. Names are flat keys:
  - a name containing '/' is not resolved against subdirectories;
  - an absolute name does not escape the storage directory;
  - a directory whose name matches is not treated as an existing file.
- Operating-system I/O failures (disk full, permissions). In the model, writing and reading
  an existing entry always succeed.
- A missing upload name (`UploadFile.filename` being None). The declared name is always a
  string.
- Concurrency, including the check-then-act race between `file_exists` and
  `file_to_bucket`. The model is sequential.
- Path-traversal sanitisation and atomic temp-and-rename writes. The source has neither.
