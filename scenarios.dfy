/** Sequences of requests and what a client can conclude about them from the handlers'
    contracts alone. */
module Scenarios {
  import opened Errors
  import opened Text
  import opened Clock
  import opened Models
  import opened Utilities
  import opened Routes

  /** Writing through `file_to_bucket` and reading back with `file_from_bucket` gives the
      bytes that were written; no other entry moves. */
  method WriteThenRead(bucket: Bucket, file: Upload, path: string) returns (r: Result<seq<byte>>)
    modifies bucket, file
    ensures r == Ok(old(file.Remaining()))
    ensures forall p :: p != path ==> bucket.FileFromBucket(p) == old(bucket.FileFromBucket(p))
  {
    bucket.FileToBucket(file, path);
    r := bucket.FileFromBucket(path);
  }

  /** After `remove_from_bucket` the name no longer exists and reading it raises. */
  method RemoveThenRead(bucket: Bucket, path: string) returns (r: Result<seq<byte>>)
    modifies bucket
    ensures !bucket.FileExists(path) && r == Err(FileNotFoundError)
    ensures forall p :: p != path ==> bucket.FileFromBucket(p) == old(bucket.FileFromBucket(p))
  {
    var removed := bucket.RemoveFromBucket(path);
    r := bucket.FileFromBucket(path);
  }

  /** `file_to_blob` leaves the stream rewound: a later full read sees the whole content. */
  method BlobThenRead(file: Upload) returns (blob: seq<byte>, again: seq<byte>)
    modifies file
    ensures blob == old(file.Remaining()) && again == file.content
  {
    blob := FileToBlob(file);
    again := file.Read();
  }

  /** A fresh upload under a new name, fetched straight away, comes back byte for byte. */
  method UploadThenGet(bucket: Bucket, file: Upload, sha256: seq<byte> -> Digest, clock: DateTime)
    returns (posted: Response, fetched: Response)
    requires file.pos == 0 && file.filename != "" && file.filename !in bucket.files
    modifies bucket, file
    ensures posted == Name(file.filename)
    ensures fetched == Attachment(file.content, "application/octet-stream",
                                  "attachment; filename=" + file.filename)
    ensures bucket.files == old(bucket.files)[file.filename := file.content]
  {
    posted := UploadFile(bucket, file, false, false, sha256, clock);
    fetched := GetFile(bucket, file.filename);
  }

  /** Uploading the same declared name twice fails the second time with 409 and keeps the
      first content. */
  method UploadTwice(bucket: Bucket, first: Upload, second: Upload,
                     sha256: seq<byte> -> Digest, clock: DateTime)
    returns (r1: Response, r2: Response)
    requires first != second && first.pos == 0
    requires first.filename == second.filename != "" && first.filename !in bucket.files
    modifies bucket, first, second
    ensures r1 == Name(first.filename)
    ensures r2 == HttpError(409, "File " + first.filename + " already exists!")
    ensures bucket.files == old(bucket.files)[first.filename := first.content]
  {
    r1 := UploadFile(bucket, first, false, false, sha256, clock);
    r2 := UploadFile(bucket, second, false, false, sha256, clock);
  }

  /** Updating a name that was never created fails with 404 and creates nothing. */
  method UpdateWithoutCreate(bucket: Bucket, filename: string, file: Upload, metadata: bool)
    returns (r: Response, fetched: Response)
    requires filename !in bucket.files
    modifies bucket, file
    ensures r == HttpError(404, "File " + filename + " not found!")
    ensures fetched == HttpError(404, "File " + filename + " not found")
    ensures bucket.files == old(bucket.files)
  {
    r := UpdateFile(bucket, filename, file, metadata);
    fetched := GetFile(bucket, filename);
  }

  /** An update of an existing name, fetched straight away, returns the new bytes. */
  method UpdateThenGet(bucket: Bucket, filename: string, file: Upload)
    returns (r: Response, fetched: Response)
    requires filename in bucket.files && file.pos == 0
    modifies bucket, file
    ensures r == Name(filename)
    ensures fetched == Attachment(file.content, "application/octet-stream",
                                  "attachment; filename=" + filename)
    ensures bucket.files.Keys == old(bucket.files.Keys)
  {
    r := UpdateFile(bucket, filename, file, false);
    fetched := GetFile(bucket, filename);
  }

  /** After a successful delete the name is gone: a GET answers 404 and a second DELETE too. */
  method DeleteThenGet(bucket: Bucket, filename: string)
    returns (deleted: Response, fetched: Response, again: Response)
    requires filename in bucket.files
    modifies bucket
    ensures deleted == Message("File " + filename + " deleted successfully")
    ensures fetched == HttpError(404, "File " + filename + " not found")
    ensures again == HttpError(404, "File " + filename + " not found!")
    ensures bucket.files == old(bucket.files) - {filename}
  {
    deleted := DeleteFile(bucket, filename);
    fetched := GetFile(bucket, filename);
    again := DeleteFile(bucket, filename);
  }

  /** One unique-mode upload of a whole stream whose content-derived name is `name`: it is
      stored under that name unless the name is taken, which answers 409. */
  method UniqueUpload(bucket: Bucket, file: Upload, sha256: seq<byte> -> Digest, clock: DateTime,
                      ghost name: string)
    returns (r: Response)
    requires file.pos == 0
    requires UniqueFilenameOf(file.content, file.filename, sha256, clock) == Ok(name)
    modifies bucket, file
    ensures name !in old(bucket.files) ==>
      r == Name(name) && bucket.files == old(bucket.files)[name := file.content]
    ensures name in old(bucket.files) ==>
      r == HttpError(409, "File " + name + " already exists!") && bucket.files == old(bucket.files)
  {
    UniqueNameShape(sha256(file.content), Now(clock), FileExtension(file.filename).value);
    assert file.Remaining() == file.content;
    r := UploadFile(bucket, file, true, false, sha256, clock);
  }

  /** The content-derived names of one file read at two different seconds: what
      `unique_filename` returns each time, and distinct. */
  lemma NamesAtTwoSeconds(content: seq<byte>, filename: string, sha256: seq<byte> -> Digest,
                          c1: DateTime, c2: DateTime, ext: string)
    requires c1.Valid() && c2.Valid() && !c1.SameSecond(c2) && FileExtension(filename) == Ok(ext)
    ensures UniqueFilenameOf(content, filename, sha256, c1) == Ok(UniqueName(sha256(content), Now(c1), ext))
    ensures UniqueFilenameOf(content, filename, sha256, c2) == Ok(UniqueName(sha256(content), Now(c2), ext))
    ensures UniqueName(sha256(content), Now(c1), ext) != UniqueName(sha256(content), Now(c2), ext)
  {
    DistinctSecondsDistinctNames(sha256(content), c1, ext, sha256(content), c2, ext);
  }

  /** Two unique-mode uploads of one file whose content-derived names are distinct and free:
      each is stored under its own name. */
  method UniqueUploadsUnderTwoNames(bucket: Bucket, first: Upload, second: Upload,
                                    sha256: seq<byte> -> Digest, c1: DateTime, c2: DateTime,
                                    ghost n1: string, ghost n2: string)
    returns (r1: Response, r2: Response)
    requires first != second && first.content == second.content
    requires first.pos == 0 && second.pos == 0 && n1 != n2
    requires first.filename == second.filename
    requires UniqueFilenameOf(first.content, first.filename, sha256, c1) == Ok(n1)
    requires UniqueFilenameOf(first.content, first.filename, sha256, c2) == Ok(n2)
    requires n1 !in bucket.files && n2 !in bucket.files
    modifies bucket, first, second
    ensures r1 == Name(n1) && r2 == Name(n2)
    ensures bucket.files == old(bucket.files)[n1 := first.content][n2 := first.content]
  {
    r1 := UniqueUpload(bucket, first, sha256, c1, n1);
    r2 := UniqueUpload(bucket, second, sha256, c2, n2);
  }

  /** The same file uploaded twice in unique mode at two different seconds, into any bucket
      that holds neither of its content-derived names `n1` and `n2`: two different names, each
      retrievable with the full content. */
  method UniqueUploadsAtTwoSeconds(bucket: Bucket, first: Upload, second: Upload,
                                   sha256: seq<byte> -> Digest, c1: DateTime, c2: DateTime,
                                   ghost ext: string, ghost n1: string, ghost n2: string)
    returns (r1: Response, r2: Response)
    requires first != second && first.content == second.content
    requires first.pos == 0 && second.pos == 0
    requires c1.Valid() && c2.Valid() && !c1.SameSecond(c2)
    requires first.filename == second.filename && FileExtension(first.filename) == Ok(ext)
    requires n1 == UniqueName(sha256(first.content), Now(c1), ext)
    requires n2 == UniqueName(sha256(first.content), Now(c2), ext)
    requires n1 !in bucket.files && n2 !in bucket.files
    modifies bucket, first, second
    ensures n1 != n2 && r1 == Name(n1) && r2 == Name(n2)
    ensures bucket.files == old(bucket.files)[n1 := first.content][n2 := first.content]
  {
    NamesAtTwoSeconds(first.content, first.filename, sha256, c1, c2, ext);
    r1, r2 := UniqueUploadsUnderTwoNames(bucket, first, second, sha256, c1, c2, n1, n2);
  }

  /** A concrete instance: `a.txt` with the same bytes, uploaded in unique mode into an empty
      bucket at 12:00:00 and again at 12:00:01, is stored under two different names. */
  method UniqueUploadsOfOneFileExample(sha256: seq<byte> -> Digest) returns (r1: Response, r2: Response)
    ensures r1.Name? && r2.Name? && r1 != r2
  {
    var bucket := new Bucket(map[]);
    var first := new Upload("a.txt", None, [1, 2, 3]);
    var second := new Upload("a.txt", None, [1, 2, 3]);
    var c1 := DateTime(2024, 5, 1, 12, 0, 0, 0);
    var c2 := DateTime(2024, 5, 1, 12, 0, 1, 0);
    ExtensionOfName("", "a", "txt");
    assert "" + "a" + "." + "txt" == "a.txt";
    r1, r2 := UniqueUploadsAtTwoSeconds(bucket, first, second, sha256, c1, c2, "txt",
                                        UniqueName(sha256([1, 2, 3]), Now(c1), "txt"),
                                        UniqueName(sha256([1, 2, 3]), Now(c2), "txt"));
  }

  /** Timestamps have one-second resolution: the same file uploaded in unique mode twice within
      one second gets the same name both times, and the second upload answers 409. */
  method UniqueUploadsInOneSecond(bucket: Bucket, first: Upload, second: Upload,
                                  sha256: seq<byte> -> Digest, c1: DateTime, c2: DateTime,
                                  ghost name: string)
    returns (r1: Response, r2: Response)
    requires first != second && first.content == second.content
    requires first.pos == 0 && second.pos == 0 && c1.SameSecond(c2)
    requires first.filename == second.filename
    requires UniqueFilenameOf(first.content, first.filename, sha256, c1) == Ok(name)
    requires name !in bucket.files
    modifies bucket, first, second
    ensures r1 == Name(name) && r2 == HttpError(409, "File " + name + " already exists!")
  {
    SameSecondSameName(first.content, first.filename, c1, second.filename, c2, sha256);
    r1 := UniqueUpload(bucket, first, sha256, c1, name);
    r2 := UniqueUpload(bucket, second, sha256, c2, name);
  }

  /** In unique mode a declared name without any dot raises before the store is touched. */
  method UniqueUploadBadName(bucket: Bucket, file: Upload, metadata: bool,
                             sha256: seq<byte> -> Digest, clock: DateTime)
    returns (r: Response)
    requires '.' !in file.filename
    modifies bucket, file
    ensures r == Raised(ValueError) && bucket.files == old(bucket.files)
  {
    CountZero(Basename(file.filename), '.');
    r := UploadFile(bucket, file, true, metadata, sha256, clock);
  }

  /** A fresh declared name posted with `metadata`: the file is stored, and then the
      `file_metadata` call raises, so the request answers 400. */
  method UploadWithMetadata(bucket: Bucket, file: Upload, sha256: seq<byte> -> Digest,
                            clock: DateTime)
    returns (r: Response)
    requires file.filename != "" && file.filename !in bucket.files
    modifies bucket, file
    ensures r == HttpError(400, "Failed to store file " + file.filename + "!")
    ensures bucket.files == old(bucket.files)[file.filename := old(file.Remaining())]
  {
    r := UploadFile(bucket, file, false, true, sha256, clock);
  }

  /** The same in unique mode: the file is stored under its content-derived name and the
      request answers 400 all the same. */
  method UniqueUploadWithMetadata(bucket: Bucket, file: Upload,
                                  sha256: seq<byte> -> Digest, clock: DateTime)
    returns (r: Response)
    requires FileExtension(file.filename).Ok?
    requires UniqueFilenameOf(file.Remaining(), file.filename, sha256, clock).value !in bucket.files
    modifies bucket, file
    ensures var n := UniqueFilenameOf(old(file.Remaining()), file.filename, sha256, clock).value;
      && r == HttpError(400, "Failed to store file " + n + "!")
      && bucket.files == old(bucket.files)[n := file.content]
  {
    UniqueNameShape(sha256(file.Remaining()), Now(clock), FileExtension(file.filename).value);
    r := UploadFile(bucket, file, true, true, sha256, clock);
  }

  /** With the corrected `file_metadata`, a fresh declared name posted with `metadata` is
      described: the record carries the declared name, the saved name and the stored size. */
  method UploadWithIntendedMetadata(bucket: Bucket, file: Upload, sha256: seq<byte> -> Digest,
                                    clock: DateTime)
    returns (r: Response)
    requires file.filename != "" && file.filename !in bucket.files
    modifies bucket, file
    ensures r == Described(Metadata(file.filename, file.filename, file.contentType, None,
                                    |old(file.Remaining())|, None))
  {
    var posted := UploadFile(bucket, file, false, false, sha256, clock);
    r := Reply(bucket.FileMetadata(file, file.filename), file.filename, true,
               "Failed to store file " + file.filename + "!");
  }
}
