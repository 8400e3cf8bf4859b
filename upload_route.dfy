/** `POST /api/upload`: validates one uploaded file (presence, size,
    extension), derives its storage key from the clock and the sanitised
    name, writes it to the bucket and answers with the new file's record.
    The clock readings and the outcomes of the two storage calls are inputs;
    the storage write the route issues is an output. */
module UploadRoute {
  import opened Wrappers
  import opened Text
  import opened Media

  /** 100 MiB. */
  const MaxSize: int := 100 * 1024 * 1024

  const AudioExtensions: seq<string> := [".mp3", ".wav", ".flac"]
  const VideoExtensions: seq<string> := [".mp4", ".avi", ".mov", ".mkv"]
  const ImageExtensions: seq<string> := [".jpg", ".jpeg", ".png", ".gif", ".bmp", ".webp"]

  /** The `file` field of the form: its name, size in bytes and declared type. */
  datatype IncomingFile = IncomingFile(name: string, size: nat, contentType: string)

  datatype UploadError =
    | NoFileProvided
    | FileTooLarge(size: nat)
    | TypeNotAllowed
    | UploadFailed   // reading the form or the file, the storage write or the signed-link request threw
  {
    /** The HTTP status of the error response. */
    function HttpStatus(): (code: nat)
      ensures code == 500 <==> this == UploadFailed
      ensures code == 400 <==> this != UploadFailed
    {
      if UploadFailed? then 500 else 400
    }
  }

  /** The `file` object of a successful response. */
  datatype UploadedFile = UploadedFile(
    id: string,
    name: string,
    fileName: string,
    size: nat,
    contentType: string,
    fileType: FileKind,
    status: Status,
    createdAt: int,
    downloadUrl: string,
    previewUrl: Option<string>,
    publicUrl: string)

  datatype UploadResponse = Accepted(file: UploadedFile) | Rejected(error: UploadError)

  /** The object the route asks the bucket to store: its key, content type,
      and the custom metadata (original name, upload time). */
  datatype StorageWrite = StorageWrite(key: string, contentType: string, originalName: string, uploadedAt: int)

  /** The lower-cased name from its last dot on; the whole lower-cased name
      when it has no dot. */
  function Extension(name: string): (ext: string)
    ensures |ext| <= |name| && ext == ToLower(name)[|name| - |ext|..]
    ensures '.' !in name ==> ext == ToLower(name)
    ensures '.' in name ==> |ext| >= 1 && ext[0] == '.' && '.' !in ext[1..]
  {
    LowerKeepsDots(name);
    var fileName := ToLower(name);
    var dot := LastIndexOf(fileName, '.');
    assert '.' in name <==> '.' in fileName;
    Substring(fileName, dot)
  }

  /** The kind an extension is allowed as, checked in the order audio, video,
      image; `None` when it is on no list. */
  function AllowedKind(ext: string): (k: Option<FileKind>)
    ensures k == Some(Audio) <==> ext in AudioExtensions
    ensures k == Some(Video) <==> ext in VideoExtensions
    ensures k == Some(Image) <==> ext in ImageExtensions
    ensures k.None? <==> ext !in AudioExtensions && ext !in VideoExtensions && ext !in ImageExtensions
    ensures k != Some(Unknown)
  {
    if ext in AudioExtensions then Some(Audio)
    else if ext in VideoExtensions then Some(Video)
    else if ext in ImageExtensions then Some(Image)
    else None
  }

  /** No extension is on two lists. */
  lemma AllowListsDisjoint(ext: string)
    ensures !(ext in AudioExtensions && ext in VideoExtensions)
    ensures !(ext in AudioExtensions && ext in ImageExtensions)
    ensures !(ext in VideoExtensions && ext in ImageExtensions)
  {
  }

  /** A name without a dot is its own "extension", which no list holds. */
  lemma NoDotRejected(name: string)
    requires '.' !in name
    ensures AllowedKind(Extension(name)).None?
  {
    var ext := Extension(name);
    LowerKeepsDots(name);
    assert '.' !in ext;
    AllowedStartsWithDot(ext);
  }

  /** Every allowed extension starts with a dot. */
  lemma AllowedStartsWithDot(ext: string)
    ensures AllowedKind(ext).Some? ==> |ext| > 1 && ext[0] == '.'
  {
  }

  /** Matching ignores case: names that differ only in the case of their
      letters are classified alike. */
  lemma ExtensionIgnoresCase(a: string, b: string)
    requires ToLower(a) == ToLower(b)
    ensures AllowedKind(Extension(a)) == AllowedKind(Extension(b))
  {
    LowerKeepsDots(a);
    LowerKeepsDots(b);
    assert forall i :: 0 <= i < |a| ==> (a[i] == '.' <==> ToLower(a)[i] == '.');
    assert ('.' in a) <==> ('.' in b) by {
      if '.' in a {
        var i :| 0 <= i < |a| && a[i] == '.';
        assert b[i] == '.';
      }
      if '.' in b {
        var i :| 0 <= i < |b| && b[i] == '.';
        assert a[i] == '.';
      }
    }
  }

  /** The characters a storage key keeps: `[A-Za-z0-9.-]`. */
  predicate IsKeyChar(c: char) {
    ('a' <= c <= 'z') || ('A' <= c <= 'Z') || ('0' <= c <= '9') || c == '.' || c == '-'
  }

  function SanitizeChar(c: char): char {
    if IsKeyChar(c) then c else '_'
  }

  /** `name.replace(/[^a-zA-Z0-9.-]/g, "_")`. */
  function Sanitize(name: string): (r: string)
    ensures |r| == |name|
  {
    if name == [] then [] else [SanitizeChar(name[0])] + Sanitize(name[1..])
  }

  /** Sanitising replaces each character on its own. */
  lemma {:induction false} SanitizePointwise(name: string)
    ensures forall i :: 0 <= i < |name| ==> Sanitize(name)[i] == SanitizeChar(name[i])
  {
    if name != [] {
      SanitizePointwise(name[1..]);
    }
  }

  /** Every character of a sanitised name is a key character or `_`; key
      characters are kept and every other character becomes `_`. */
  lemma SanitizeCharacters(name: string)
    ensures forall i :: 0 <= i < |name| ==> IsKeyChar(Sanitize(name)[i]) || Sanitize(name)[i] == '_'
    ensures forall i :: 0 <= i < |name| ==> IsKeyChar(name[i]) ==> Sanitize(name)[i] == name[i]
    ensures forall i :: 0 <= i < |name| ==> !IsKeyChar(name[i]) ==> Sanitize(name)[i] == '_'
  {
    SanitizePointwise(name);
  }

  /** Sanitising twice is sanitising once. */
  lemma SanitizeIdempotent(name: string)
    ensures Sanitize(Sanitize(name)) == Sanitize(name)
  {
    SanitizePointwise(name);
    SanitizePointwise(Sanitize(name));
  }

  /** The storage key: the upload time in milliseconds, a hyphen, the
      sanitised name. */
  function StorageKey(timestamp: nat, name: string): (key: string)
    ensures |key| == |NatToString(timestamp)| + 1 + |name|
  {
    NatToString(timestamp) + "-" + Sanitize(name)
  }

  /** Splits a storage key at its first hyphen into the timestamp and the
      sanitised name; `None` when the part before it is not a decimal number. */
  function ParseStorageKey(key: string): Option<(nat, string)> {
    var dash := IndexOf(key, '-');
    if dash <= 0 then None
    else if forall i :: 0 <= i < dash ==> IsDigit(key[i]) then Some((ParseNat(key[..dash]), key[dash + 1..]))
    else None
  }

  /** The key gives back the timestamp and the sanitised name it was made of. */
  lemma StorageKeyRoundTrip(timestamp: nat, name: string)
    ensures ParseStorageKey(StorageKey(timestamp, name)) == Some((timestamp, Sanitize(name)))
  {
    var digits := NatToString(timestamp);
    var key := StorageKey(timestamp, name);
    assert key[|digits|] == '-';
    assert forall i :: 0 <= i < |digits| ==> key[i] == digits[i];
    assert IndexOf(key, '-') == |digits|;
    assert key[..|digits|] == digits;
    assert key[|digits| + 1..] == Sanitize(name);
    ParseNatToString(timestamp);
  }

  /** Uploads at different milliseconds never share a key. */
  lemma StorageKeysDistinct(t1: nat, name1: string, t2: nat, name2: string)
    requires t1 != t2
    ensures StorageKey(t1, name1) != StorageKey(t2, name2)
  {
    StorageKeyRoundTrip(t1, name1);
    StorageKeyRoundTrip(t2, name2);
  }

  /** A request passes validation: a file is present, at most 100 MiB, and its
      extension is on an allow-list. */
  predicate Admissible(file: Option<IncomingFile>) {
    file.Some? && file.value.size <= MaxSize && AllowedKind(Extension(file.value.name)).Some?
  }

  /** The route. `formRead` and `bufferRead` say whether `request.formData()`
      and `file.arrayBuffer()` return rather than throw; `timestamp` is
      `Date.now()` for the key, `uploadedAt` and `createdAt` the two later
      clock readings; `saveSucceeds` and `signedUrl` are the outcomes of the
      storage write and of the signed-link request. Every throw lands in the
      one `catch`, which answers `UploadFailed`. */
  method Upload(formRead: bool, file: Option<IncomingFile>, bufferRead: bool, timestamp: nat,
                uploadedAt: int, createdAt: int, bucket: string, saveSucceeds: bool, signedUrl: Option<string>)
    returns (resp: UploadResponse, write: Option<StorageWrite>)
    ensures !formRead ==> resp == Rejected(UploadFailed)
    ensures formRead && file.None? ==> resp == Rejected(NoFileProvided)
    ensures formRead && file.Some? && file.value.size > MaxSize ==> resp == Rejected(FileTooLarge(file.value.size))
    ensures (formRead && file.Some? && file.value.size <= MaxSize && AllowedKind(Extension(file.value.name)).None?)
              ==> resp == Rejected(TypeNotAllowed)
    ensures write.Some? <==> formRead && Admissible(file) && bufferRead
    ensures write.Some? ==>
              write.value == StorageWrite(StorageKey(timestamp, file.value.name), file.value.contentType,
                                          file.value.name, uploadedAt)
    ensures resp.Accepted? <==> formRead && Admissible(file) && bufferRead && saveSucceeds && signedUrl.Some?
    ensures (formRead && Admissible(file) && !(bufferRead && saveSucceeds && signedUrl.Some?))
              ==> resp == Rejected(UploadFailed)
    ensures resp.Accepted? ==>
              var key := StorageKey(timestamp, file.value.name);
              var kind := AllowedKind(Extension(file.value.name)).value;
              resp.file == UploadedFile(
                id := key, name := file.value.name, fileName := key, size := file.value.size,
                contentType := file.value.contentType, fileType := kind, status := Uploaded,
                createdAt := createdAt, downloadUrl := signedUrl.value,
                previewUrl := if kind == Image then signedUrl else None,
                publicUrl := PublicUrl(bucket, key))
    ensures resp.Accepted? ==>
              && resp.file.fileType != Unknown
              && ParseStorageKey(resp.file.id) == Some((timestamp, Sanitize(resp.file.name)))
  {
    write := None;
    if !formRead {
      return Rejected(UploadFailed), None;
    }
    if file.None? {
      return Rejected(NoFileProvided), None;
    }
    var f := file.value;
    if f.size > MaxSize {
      return Rejected(FileTooLarge(f.size)), None;
    }
    var fileName := ToLower(f.name);
    var fileExt := Substring(fileName, LastIndexOf(fileName, '.'));
    assert fileExt == Extension(f.name);
    var fileType := Unknown;
    var isAllowed := false;
    if fileExt in AudioExtensions {
      fileType := Audio;
      isAllowed := true;
    } else if fileExt in VideoExtensions {
      fileType := Video;
      isAllowed := true;
    } else if fileExt in ImageExtensions {
      fileType := Image;
      isAllowed := true;
    }
    if !isAllowed {
      return Rejected(TypeNotAllowed), None;
    }
    var sanitizedName := Sanitize(f.name);
    var key := NatToString(timestamp) + "-" + sanitizedName;
    if !bufferRead {
      return Rejected(UploadFailed), None;
    }
    write := Some(StorageWrite(key, f.contentType, f.name, uploadedAt));
    if !saveSucceeds || signedUrl.None? {
      return Rejected(UploadFailed), write;
    }
    var downloadUrl := signedUrl.value;
    StorageKeyRoundTrip(timestamp, f.name);
    resp := Accepted(UploadedFile(
      id := key, name := f.name, fileName := key, size := f.size, contentType := f.contentType,
      fileType := fileType, status := Uploaded, createdAt := createdAt, downloadUrl := downloadUrl,
      previewUrl := if fileType == Image then Some(downloadUrl) else None,
      publicUrl := PublicUrl(bucket, key)));
  }

  /** Exactly 100 MiB still passes the size check; one byte more does not. */
  lemma SizeBoundary(name: string, contentType: string)
    requires AllowedKind(Extension(name)).Some?
    ensures Admissible(Some(IncomingFile(name, MaxSize, contentType)))
    ensures !Admissible(Some(IncomingFile(name, MaxSize + 1, contentType)))
  {
  }
}
