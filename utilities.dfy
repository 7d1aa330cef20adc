/** The storage and naming helpers of `app/utilities.py`. The storage directory is a
    `Bucket` whose `files` map each name to its bytes (joining a name onto the directory
    is the identity on keys); an upload is an `Upload` object holding the client's
    declared name and type and a byte stream with a read position. */
module Utilities {
  import opened Errors
  import opened Text
  import opened Clock
  import opened Models

  newtype byte = b: int | 0 <= b < 256

  predicate IsHexChar(c: char)
  {
    '0' <= c <= '9' || 'a' <= c <= 'f'
  }

  /** What `hexdigest()` of a SHA-256 hash returns: 64 lower-case hexadecimal characters. */
  predicate IsHexDigest(s: string)
  {
    |s| == 64 && forall i :: 0 <= i < |s| ==> IsHexChar(s[i])
  }

  const ZeroDigest: string := seq(64, _ => '0')

  type Digest = s: string | IsHexDigest(s) witness ZeroDigest

  /** FastAPI's `UploadFile`: the name and content type the client declared, and the spooled
      file behind `file.file`, whose bytes stay fixed while its read position moves. */
  class Upload {
    const filename: string
    const contentType: Option<string>
    const content: seq<byte>
    var pos: nat

    constructor (filename: string, contentType: Option<string>, content: seq<byte>)
      ensures this.filename == filename && this.contentType == contentType
      ensures this.content == content && pos == 0
    {
      this.filename := filename;
      this.contentType := contentType;
      this.content := content;
      pos := 0;
    }

    /** The bytes a `read()` would return now: from the position to the end. */
    function Remaining(): seq<byte>
      reads this
    {
      if pos <= |content| then content[pos..] else []
    }

    /** `file.file.read()`: everything from the position on; the position moves to the end
        (a position already past the end stays where it is). */
    method Read() returns (blob: seq<byte>)
      modifies this
      ensures blob == old(Remaining())
      ensures pos == (if old(pos) <= |content| then |content| else old(pos))
      ensures Remaining() == []
    {
      blob := Remaining();
      if pos <= |content| {
        pos := |content|;
      }
    }

    /** `file.file.seek(0)`. */
    method Rewind()
      modifies this
      ensures pos == 0 && Remaining() == content
    {
      pos := 0;
    }
  }

  /** The storage directory: one flat map from file names to file contents. */
  class Bucket {
    var files: map<string, seq<byte>>

    constructor (files: map<string, seq<byte>>)
      ensures this.files == files
    {
      this.files := files;
    }

    /** `file_exists(path)`: `os.path.exists` on the joined path. */
    predicate FileExists(path: string)
      reads this
    {
      path in files
    }

    /** `file_to_bucket(file, path)`: opens `path` for writing, truncating anything there,
        and writes what a `read()` of the upload returns. */
    method FileToBucket(file: Upload, path: string)
      modifies this, file
      ensures files == old(files)[path := old(file.Remaining())]
      ensures file.pos == (if old(file.pos) <= |file.content| then |file.content| else old(file.pos))
      ensures file.Remaining() == []
    {
      var blob := file.Read();
      files := files[path := blob];
    }

    /** `file_from_bucket(path)`: the whole content of `path`; `open` raises when it is absent. */
    function FileFromBucket(path: string): (r: Result<seq<byte>>)
      reads this
      ensures r.Ok? <==> FileExists(path)
      ensures r.Ok? ==> r.value == files[path]
      ensures r.Err? ==> r.error == FileNotFoundError
    {
      if path in files then Ok(files[path]) else Err(FileNotFoundError)
    }

    /** `remove_from_bucket(path)`: `os.remove`, which raises when `path` is absent. */
    method RemoveFromBucket(path: string) returns (r: Outcome)
      modifies this
      ensures r == (if path in old(files) then Done else Failed(FileNotFoundError))
      ensures files == old(files) - {path}
    {
      if path in files {
        files := files - {path};
        r := Done;
      } else {
        r := Failed(FileNotFoundError);
      }
    }

    /** `file_size(file)`: `os.path.getsize` of the entry named by the upload's own declared
        name (not the name it was saved under); raises when there is no such entry. */
    function FileSize(file: Upload): (r: Result<int>)
      reads this
      ensures r.Ok? <==> FileExists(FileName(file))
      ensures r.Ok? ==> r.value == |files[FileName(file)]| && r.value >= 0
      ensures r.Err? ==> r.error == FileNotFoundError
    {
      var path := FilePath(FileName(file));
      if path in files then Ok(|files[path]|) else Err(FileNotFoundError)
    }

    /** `file_metadata(file, saved_as)` as `app/utilities.py` writes it: the keyword arguments
        are evaluated first (so a missing entry raises from `file_size`), and then the
        `Metadata` call leaves out the required `sha256` field. It therefore never succeeds. */
    function FileMetadataAsWritten(file: Upload, savedAs: string): (r: Result<Metadata>)
      reads this
      ensures r.Err?
      ensures r.error == (if FileExists(FileName(file)) then ValidationError else FileNotFoundError)
    {
      match FileSize(file)
      case Err(e) => Err(e)
      case Ok(size) =>
        NewMetadata(Given(file.filename), Given(savedAs), Given(file.contentType), Omitted,
                    Given(size), Omitted)
    }

    /** `file_metadata(file, saved_as)` with the `sha256` field given as `None`, the value its
        `str | None` annotation and the neighbouring optional `modified_time` point to. */
    function FileMetadata(file: Upload, savedAs: string): (r: Result<Metadata>)
      reads this
      ensures r.Ok? <==> FileExists(FileName(file))
      ensures r.Ok? ==> r.value == Metadata(file.filename, savedAs, file.contentType, None,
                                            |files[file.filename]|, None)
      ensures r.Err? ==> r.error == FileNotFoundError
    {
      match FileSize(file)
      case Err(e) => Err(e)
      case Ok(size) =>
        NewMetadata(Given(file.filename), Given(savedAs), Given(file.contentType), Given(None),
                    Given(size), Omitted)
    }
  }

  /** The discrepancy on a stored file: the call as written raises `ValidationError` where the
      call with `sha256=None` returns the record. */
  lemma MetadataOfStoredFile(bucket: Bucket, file: Upload, savedAs: string)
    requires file.filename in bucket.files
    ensures bucket.FileMetadataAsWritten(file, savedAs) == Err(ValidationError)
    ensures bucket.FileMetadata(file, savedAs).Ok?
    ensures bucket.FileMetadata(file, savedAs).value.size == |bucket.files[file.filename]|
  {
  }

  /** `file_name(file)`. */
  function FileName(file: Upload): string
  {
    file.filename
  }

  /** `file_path(filename)`: the storage directory is the map itself, so a name is its key. */
  function FilePath(filename: string): string
  {
    filename
  }

  /** `now()`: the clock reading formatted with `%Y%m%dT%H%M%S`. */
  function Now(t: DateTime): (stamp: string)
    ensures |stamp| == 15 && '.' !in stamp
  {
    Digits(t.year, 4) + Digits(t.month, 2) + Digits(t.day, 2) + "T"
      + Digits(t.hour, 2) + Digits(t.minute, 2) + Digits(t.second, 2)
  }

  /** Distinct seconds give distinct timestamps; the microseconds are not printed. */
  lemma NowInjective(a: DateTime, b: DateTime)
    requires a.Valid() && b.Valid()
    requires Now(a) == Now(b)
    ensures a.SameSecond(b)
  {
    var ya, yb := Digits(a.year, 4), Digits(b.year, 4);
    var ma, mb := Digits(a.month, 2), Digits(b.month, 2);
    var da, db := Digits(a.day, 2), Digits(b.day, 2);
    var ha, hb := Digits(a.hour, 2), Digits(b.hour, 2);
    var na, nb := Digits(a.minute, 2), Digits(b.minute, 2);
    var sa, sb := Digits(a.second, 2), Digits(b.second, 2);
    ConcatCancel(ya + ma + da + "T" + ha + na, sa, yb + mb + db + "T" + hb + nb, sb);
    ConcatCancel(ya + ma + da + "T" + ha, na, yb + mb + db + "T" + hb, nb);
    ConcatCancel(ya + ma + da + "T", ha, yb + mb + db + "T", hb);
    ConcatCancel(ya + ma + da, "T", yb + mb + db, "T");
    ConcatCancel(ya + ma, da, yb + mb, db);
    ConcatCancel(ya, ma, yb, mb);
    assert Pow10(2) == 100 && Pow10(4) == 10000 by {
      assert Pow10(1) == 10;
      assert Pow10(3) == 1000;
    }
    DigitsInjective(a.year, b.year, 4);
    DigitsInjective(a.month, b.month, 2);
    DigitsInjective(a.day, b.day, 2);
    DigitsInjective(a.hour, b.hour, 2);
    DigitsInjective(a.minute, b.minute, 2);
    DigitsInjective(a.second, b.second, 2);
  }

  /** `file_extension(file)`: splits the basename of the declared name on '.' and unpacks
      the parts into two names, which raises `ValueError` unless there are exactly two. */
  function FileExtension(filename: string): (r: Result<string>)
    ensures r.Ok? <==> Count(Basename(filename), '.') == 1
    ensures r.Err? ==> r.error == ValueError
    ensures r.Ok? ==>
      var base := Basename(filename);
      && '.' !in r.value && '/' !in r.value && |r.value| < |base|
      && base[|base| - |r.value|..] == r.value && base[|base| - |r.value| - 1] == '.'
  {
    var base := Basename(filename);
    var parts := Split(base, '.');
    if |parts| == 2 then
      JoinSplit(base, '.');
      assert Join(parts[1..], '.') == parts[1];
      assert base == parts[0] + ['.'] + parts[1];
      Ok(parts[1])
    else Err(ValueError)
  }

  /** A name with one dot, after an optional directory part, has the text after the dot as
      its extension. */
  lemma ExtensionOfName(dir: string, stem: string, ext: string)
    requires dir == [] || dir[|dir| - 1] == '/'
    requires '.' !in stem && '.' !in ext && '/' !in stem && '/' !in ext
    ensures FileExtension(dir + stem + "." + ext) == Ok(ext)
  {
    assert dir + stem + "." + ext == dir + (stem + "." + ext);
    BasenameAfterDirectory(dir, stem + "." + ext);
    SplitTwo(stem, ext, '.');
  }

  /** The name `unique_filename` composes: digest, timestamp and extension joined by dots. */
  function UniqueName(digest: Digest, stamp: string, ext: string): string
  {
    digest + "." + stamp + "." + ext
  }

  /** A unique name is never empty and holds two dots more than its extension. */
  lemma UniqueNameShape(digest: Digest, stamp: string, ext: string)
    requires '.' !in stamp
    ensures UniqueName(digest, stamp, ext) != ""
    ensures Count(UniqueName(digest, stamp, ext), '.') == Count(ext, '.') + 2
  {
    assert forall i :: 0 <= i < |digest| ==> digest[i] != '.';
    CountZero(digest, '.');
    CountZero(stamp, '.');
    CountConcat(digest + "." + stamp + ".", ext, '.');
    CountConcat(digest + "." + stamp, ".", '.');
    CountConcat(digest + ".", stamp, '.');
    CountConcat(digest, ".", '.');
  }

  /** Digests and timestamps have fixed widths, so a unique name determines all three parts. */
  lemma UniqueNameInjective(d1: Digest, s1: string, e1: string, d2: Digest, s2: string, e2: string)
    requires |s1| == |s2|
    requires UniqueName(d1, s1, e1) == UniqueName(d2, s2, e2)
    ensures d1 == d2 && s1 == s2 && e1 == e2
  {
    var n := UniqueName(d1, s1, e1);
    assert d1 == n[..64] == d2;
    assert s1 == n[65..65 + |s1|] == s2;
    assert e1 == n[66 + |s1|..] == e2;
  }

  /** What `unique_filename` returns for an upload whose stream yields `remaining`: the digest
      sees only the bytes, never the declared name or type; the extension may raise. */
  function UniqueFilenameOf(remaining: seq<byte>, filename: string,
                            sha256: seq<byte> -> Digest, clock: DateTime): Result<string>
  {
    match FileExtension(filename)
    case Ok(ext) => Ok(UniqueName(sha256(remaining), Now(clock), ext))
    case Err(e) => Err(e)
  }

  /** Uploads read at different seconds get different unique names, whatever their content
      and extension. */
  lemma DistinctSecondsDistinctNames(d1: Digest, c1: DateTime, e1: string,
                                     d2: Digest, c2: DateTime, e2: string)
    requires c1.Valid() && c2.Valid() && !c1.SameSecond(c2)
    ensures UniqueName(d1, Now(c1), e1) != UniqueName(d2, Now(c2), e2)
  {
    if UniqueName(d1, Now(c1), e1) == UniqueName(d2, Now(c2), e2) {
      UniqueNameInjective(d1, Now(c1), e1, d2, Now(c2), e2);
      NowInjective(c1, c2);
      assert false;
    }
  }

  /** The same bytes read within one second, under names with the same extension, get the
      same unique name: the timestamp does not separate them. */
  lemma SameSecondSameName(content: seq<byte>, f1: string, c1: DateTime, f2: string, c2: DateTime,
                           sha256: seq<byte> -> Digest)
    requires c1.SameSecond(c2) && FileExtension(f1) == FileExtension(f2)
    ensures UniqueFilenameOf(content, f1, sha256, c1) == UniqueFilenameOf(content, f2, sha256, c2)
  {
  }

  /** `file_to_blob(file)`: reads the rest of the stream, then rewinds it to the start. */
  method FileToBlob(file: Upload) returns (blob: seq<byte>)
    modifies file
    ensures blob == old(file.Remaining())
    ensures file.pos == 0 && file.Remaining() == file.content
  {
    blob := file.Read();
    file.Rewind();
  }

  /** `file_hash(file)`: the SHA-256 digest of what `file_to_blob` returns. */
  method FileHash(file: Upload, sha256: seq<byte> -> Digest) returns (digest: Digest)
    modifies file
    ensures digest == sha256(old(file.Remaining()))
    ensures file.pos == 0
  {
    var blob := FileToBlob(file);
    digest := sha256(blob);
  }

  /** `unique_filename(file)`: the f-string evaluates the hash first (which rewinds the stream),
      then the clock, then the extension, which may raise. */
  method UniqueFilename(file: Upload, sha256: seq<byte> -> Digest, clock: DateTime)
    returns (r: Result<string>)
    modifies file
    ensures r == UniqueFilenameOf(old(file.Remaining()), file.filename, sha256, clock)
    ensures file.pos == 0
  {
    var digest := FileHash(file, sha256);
    var stamp := Now(clock);
    var ext := FileExtension(FileName(file));
    if ext.Err? {
      return Err(ext.error);
    }
    r := Ok(UniqueName(digest, stamp, ext.value));
  }
}
