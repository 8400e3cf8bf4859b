/** The records the routes and the client page exchange: the kind and status
    of a media file, a metadata document written by the external analysis
    pipeline, its projection as the `aiAnalysis` of a file, and the file
    record itself (`MediaFile`). */
module Media {
  import opened Wrappers

  datatype FileKind = Image | Video | Audio | Unknown

  /** The string the routes send as `fileType`. */
  function KindName(k: FileKind): string {
    match k
    case Image => "image"
    case Video => "video"
    case Audio => "audio"
    case Unknown => "unknown"
  }

  datatype Status = Uploaded | Processing | Completed | Error

  /** The string the routes send as `status`. */
  function StatusName(s: Status): string {
    match s
    case Uploaded => "uploaded"
    case Processing => "processing"
    case Completed => "completed"
    case Error => "error"
  }

  /** A document of the `media_metadata` collection. Every field may be
      missing; `fileName` is the storage key the document describes.
      Timestamps (`uploadTime`, `processedAt`) are only rendered and are not
      part of this record. */
  datatype MetadataDoc = MetadataDoc(
    fileName: Option<string>,
    tags: Option<seq<string>>,
    objectTags: Option<seq<string>>,
    transcription: Option<string>,
    extractedText: Option<string>,
    scenes: Option<seq<string>>,
    topics: Option<seq<string>>)

  /** The `aiAnalysis` block of a listed file: a metadata document with its
      gaps filled by defaults. */
  datatype AiAnalysis = AiAnalysis(
    tags: seq<string>,
    transcript: string,
    extractedText: string,
    scenes: seq<string>,
    topics: seq<string>)

  /** A media file as the listing route returns it and the page keeps it.
      Times are milliseconds since the epoch. */
  datatype MediaFile = MediaFile(
    id: string,
    name: string,
    fileName: string,
    fileType: FileKind,
    size: int,
    contentType: Option<string>,
    status: Status,
    createdAt: int,
    downloadUrl: string,
    previewUrl: Option<string>,
    publicUrl: string,
    hasMetadata: bool,
    aiAnalysis: Option<AiAnalysis>)

  /** The bucket used when `GCS_BUCKET_NAME` is not set. */
  const DefaultBucket: string := "tubesltka2425"

  /** The public address of object `key` in `bucket`. */
  function PublicUrl(bucket: string, key: string): string {
    "https://storage.googleapis.com/" + bucket + "/" + key
  }

  /** JavaScript's `a || b` on optional strings: `a` unless it is missing or empty. */
  function OrElse(a: Option<string>, b: Option<string>): Option<string> {
    if a.Some? && a.value != "" then a else b
  }
}
