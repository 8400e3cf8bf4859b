/** `GET /api/files`: joins the bucket listing with the metadata snapshot,
    derives each file's kind, status and AI analysis, then filters by kind,
    searches and paginates. The bucket listing, the per-object SDK results,
    the metadata snapshot and the clock are inputs. */
module FilesRoute {
  import opened Wrappers
  import opened Text
  import opened Seqs
  import opened Media

  /** Age, in milliseconds, after which a file without metadata counts as
      still processing. */
  const TenMinutes: int := 10 * 60 * 1000

  const DefaultLimit: int := 100
  const DefaultOffset: int := 0

  /** What `file.getMetadata()` reports for one object. */
  datatype ObjectMetadata = ObjectMetadata(
    contentType: Option<string>,
    size: int,
    timeCreated: int,
    originalName: Option<string>)

  /** One entry of the bucket listing. `metadata` is `None` when
      `getMetadata` throws and `signedUrl` is `None` when `getSignedUrl`
      throws; `publicLink` and `mediaLink` are the SDK's links to the object. */
  datatype ListedObject = ListedObject(
    name: string,
    publicLink: Option<string>,
    mediaLink: Option<string>,
    metadata: Option<ObjectMetadata>,
    signedUrl: Option<string>)

  /** The query string: `None` stands for a parameter that is absent or empty. */
  datatype FilesQuery = FilesQuery(
    fileType: Option<string>,
    searchText: Option<string>,
    limit: Option<int>,
    offset: Option<int>)

  datatype FilesResponse =
    | FilesOk(files: seq<MediaFile>, total: nat, limit: int, offset: int)
    | FilesFailed   // status 500, "Failed to fetch files"

  /** `getFileTypeFromContentType`: the kind named by the content type's
      top-level prefix. */
  function ContentKind(contentType: string): (k: FileKind)
    ensures k == Image <==> "image/" <= contentType
    ensures k == Video <==> "video/" <= contentType
    ensures k == Audio <==> "audio/" <= contentType
  {
    KindPrefixesExclusive(contentType);
    if "image/" <= contentType then Image
    else if "video/" <= contentType then Video
    else if "audio/" <= contentType then Audio
    else Unknown
  }

  /** No content type starts with two of the three kind prefixes. */
  lemma KindPrefixesExclusive(contentType: string)
    ensures !("image/" <= contentType && "video/" <= contentType)
    ensures !("image/" <= contentType && "audio/" <= contentType)
    ensures !("video/" <= contentType && "audio/" <= contentType)
  {
    if "image/" <= contentType { assert contentType[0] == 'i'; }
    if "video/" <= contentType { assert contentType[0] == 'v'; }
  }

  /** The kind is a total function of the content type: exactly one kind,
      and `Unknown` for everything without one of the three prefixes. */
  lemma ContentKindTotal(contentType: string)
    ensures ContentKind(contentType) == Unknown <==>
      !("image/" <= contentType) && !("video/" <= contentType) && !("audio/" <= contentType)
  {
  }

  /** `getThumbnailUrl`: images preview from their own link, the other kinds
      from a fixed site-relative placeholder. */
  function ThumbnailUrl(kind: FileKind, publicLink: Option<string>, mediaLink: Option<string>): (r: Option<string>)
    ensures kind != Image ==> r.Some? && |r.value| > 1 && r.value[0] == '/'
    ensures kind == Image ==> r == publicLink || r == mediaLink
    ensures kind == Image && publicLink.Some? && publicLink.value != "" ==> r == publicLink
    ensures kind == Image && !(publicLink.Some? && publicLink.value != "") ==> r == mediaLink
    ensures kind == Video ==> r == Some("/video-thumbnail.jpg")
    ensures kind == Audio ==> r == Some("/audio-thumbnail.jpg")
    ensures kind == Unknown ==> r == Some("/placeholder.jpg")
  {
    match kind
    case Image => OrElse(publicLink, mediaLink)
    case Video => Some("/video-thumbnail.jpg")
    case Audio => Some("/audio-thumbnail.jpg")
    case Unknown => Some("/placeholder.jpg")
  }

  /** The key a document is indexed under: its `fileName`, unless that is
      missing or empty. */
  function IndexKey(doc: MetadataDoc): Option<string> {
    if doc.fileName.Some? && doc.fileName.value != "" then doc.fileName else None
  }

  /** The map the `forEach` over the snapshot leaves behind: each document
      stored under its key, in snapshot order. */
  function MetadataIndex(docs: seq<MetadataDoc>): map<string, MetadataDoc>
    decreases |docs|
  {
    if docs == [] then map[]
    else
      var m := MetadataIndex(docs[..|docs| - 1]);
      var last := docs[|docs| - 1];
      if IndexKey(last).Some? then m[IndexKey(last).value := last] else m
  }

  /** The keys of the index are exactly the keys some document carries;
      documents without a `fileName` contribute nothing. */
  lemma {:induction false} MetadataIndexKeys(docs: seq<MetadataDoc>, key: string)
    ensures key in MetadataIndex(docs) <==> exists i :: 0 <= i < |docs| && IndexKey(docs[i]) == Some(key)
    decreases |docs|
  {
    if docs != [] {
      var init := docs[..|docs| - 1];
      MetadataIndexKeys(init, key);
      assert forall i :: 0 <= i < |init| ==> init[i] == docs[i];
    }
  }

  /** When several documents share a key, the last one in the snapshot wins. */
  lemma {:induction false} MetadataIndexLastWins(docs: seq<MetadataDoc>, i: int, key: string)
    requires 0 <= i < |docs| && IndexKey(docs[i]) == Some(key)
    requires forall j :: i < j < |docs| ==> IndexKey(docs[j]) != Some(key)
    ensures key in MetadataIndex(docs) && MetadataIndex(docs)[key] == docs[i]
    decreases |docs|
  {
    var init := docs[..|docs| - 1];
    if i < |docs| - 1 {
      MetadataIndexLastWins(init, i, key);
    }
  }

  /** Fills the metadata map from the snapshot, one document at a time. */
  method BuildMetadataMap(docs: seq<MetadataDoc>) returns (m: map<string, MetadataDoc>)
    ensures m == MetadataIndex(docs)
  {
    m := map[];
    var i := 0;
    while i < |docs|
      invariant 0 <= i <= |docs|
      invariant m == MetadataIndex(docs[..i])
    {
      assert docs[..i + 1][..i] == docs[..i];
      var data := docs[i];
      if data.fileName.Some? && data.fileName.value != "" {
        m := m[data.fileName.value := data];
      }
      i := i + 1;
    }
    assert docs[..i] == docs;
  }

  /** The `aiAnalysis` projection of a metadata document. */
  function Project(doc: MetadataDoc): (a: AiAnalysis)
    ensures doc.tags.Some? ==> a.tags == doc.tags.value
    ensures doc.tags.None? && doc.objectTags.Some? ==> a.tags == doc.objectTags.value
    ensures doc.tags.None? && doc.objectTags.None? ==> a.tags == []
    ensures a.transcript == if doc.transcription.Some? then doc.transcription.value else ""
    ensures a.extractedText == if doc.extractedText.Some? then doc.extractedText.value else ""
    ensures a.scenes == if doc.scenes.Some? then doc.scenes.value else []
    ensures a.topics == if doc.topics.Some? then doc.topics.value else []
  {
    AiAnalysis(
      tags := if doc.tags.Some? then doc.tags.value else doc.objectTags.GetOr([]),
      transcript := doc.transcription.GetOr(""),
      extractedText := doc.extractedText.GetOr(""),
      scenes := doc.scenes.GetOr([]),
      topics := doc.topics.GetOr([]))
  }

  /** Status of a file from whether it has metadata and its age in
      milliseconds. */
  function FileStatus(hasMetadata: bool, age: int): (s: Status)
    ensures s != Error
    ensures s == Completed <==> hasMetadata
    ensures s == Processing <==> !hasMetadata && age > TenMinutes
    ensures s == Uploaded <==> !hasMetadata && age <= TenMinutes
  {
    if hasMetadata then Completed
    else if age > TenMinutes then Processing
    else Uploaded
  }

  /** The record built for one listed object, or `None` when one of its SDK
      calls threw. */
  function Reconciled(obj: ListedObject, index: map<string, MetadataDoc>, now: int, bucket: string): (r: Option<MediaFile>)
    ensures r.Some? <==> obj.metadata.Some? && obj.signedUrl.Some?
    ensures r.Some? ==> r.value.id == obj.name && r.value.fileName == obj.name
    ensures r.Some? ==> (r.value.hasMetadata <==> obj.name in index)
    ensures r.Some? ==> (r.value.aiAnalysis.Some? <==> r.value.hasMetadata)
    ensures r.Some? && r.value.hasMetadata ==> r.value.aiAnalysis == Some(Project(index[obj.name]))
    ensures r.Some? ==> r.value.status == FileStatus(obj.name in index, now - obj.metadata.value.timeCreated)
  {
    if obj.metadata.None? || obj.signedUrl.None? then None
    else
      var md := obj.metadata.value;
      var kind := ContentKind(md.contentType.GetOr(""));
      var hasMetadata := obj.name in index;
      Some(MediaFile(
        id := obj.name,
        name := OrElse(md.originalName, Some(obj.name)).value,
        fileName := obj.name,
        fileType := kind,
        size := md.size,
        contentType := md.contentType,
        status := FileStatus(hasMetadata, now - md.timeCreated),
        createdAt := md.timeCreated,
        downloadUrl := obj.signedUrl.value,
        previewUrl := ThumbnailUrl(kind, obj.publicLink, obj.mediaLink),
        publicUrl := PublicUrl(bucket, obj.name),
        hasMetadata := hasMetadata,
        aiAnalysis := if hasMetadata then Some(Project(index[obj.name])) else None))
  }

  /** A listed file shows the original name when the upload recorded one, and
      its kind follows its content type. */
  lemma ReconciledNameAndKind(obj: ListedObject, index: map<string, MetadataDoc>, now: int, bucket: string)
    requires obj.metadata.Some? && obj.signedUrl.Some?
    ensures var f := Reconciled(obj, index, now, bucket).value;
      && ((obj.metadata.value.originalName.Some? && obj.metadata.value.originalName.value != "")
          ==> f.name == obj.metadata.value.originalName.value)
      && (!(obj.metadata.value.originalName.Some? && obj.metadata.value.originalName.value != "")
          ==> f.name == obj.name)
      && f.fileType == ContentKind(obj.metadata.value.contentType.GetOr(""))
      && f.publicUrl == PublicUrl(bucket, obj.name)
  {
  }

  /** Processes one listed object as the `map` callback does. */
  method ReconcileFile(obj: ListedObject, index: map<string, MetadataDoc>, now: int, bucket: string)
    returns (r: Option<MediaFile>)
    ensures r == Reconciled(obj, index, now, bucket)
  {
    if obj.metadata.None? {
      return None;
    }
    var metadata := obj.metadata.value;
    var originalName := OrElse(metadata.originalName, Some(obj.name)).value;
    var bucketFileName := obj.name;
    var contentType := metadata.contentType.GetOr("");
    var fileTypeFromContent := ContentKind(contentType);
    var hasMetadata := bucketFileName in index;
    var status := Uploaded;
    if hasMetadata {
      status := Completed;
    } else {
      var fileAge := now - metadata.timeCreated;
      if fileAge > TenMinutes {
        status := Processing;
      } else {
        status := Uploaded;
      }
    }
    if obj.signedUrl.None? {
      return None;
    }
    var previewUrl := ThumbnailUrl(fileTypeFromContent, obj.publicLink, obj.mediaLink);
    r := Some(MediaFile(
      id := bucketFileName,
      name := originalName,
      fileName := bucketFileName,
      fileType := fileTypeFromContent,
      size := metadata.size,
      contentType := metadata.contentType,
      status := status,
      createdAt := metadata.timeCreated,
      downloadUrl := obj.signedUrl.value,
      previewUrl := previewUrl,
      publicUrl := PublicUrl(bucket, bucketFileName),
      hasMetadata := hasMetadata,
      aiAnalysis := if hasMetadata then Some(Project(index[bucketFileName])) else None));
  }

  /** The per-object results, in listing order. */
  function AllReconciled(listing: seq<ListedObject>, index: map<string, MetadataDoc>, now: int, bucket: string)
    : (rs: seq<Option<MediaFile>>)
    ensures |rs| == |listing|
    ensures forall i :: 0 <= i < |listing| ==> rs[i] == Reconciled(listing[i], index, now, bucket)
  {
    seq(|listing|, i requires 0 <= i < |listing| => Reconciled(listing[i], index, now, bucket))
  }

  /** A type filter applies when `fileType` is given and is not `all`. */
  predicate TypeFilterActive(fileType: Option<string>) {
    fileType.Some? && fileType.value != "" && fileType.value != "all"
  }

  function ApplyTypeFilter(files: seq<MediaFile>, fileType: Option<string>): seq<MediaFile> {
    if TypeFilterActive(fileType) then Filter(files, (f: MediaFile) => KindName(f.fileType) == fileType.value)
    else files
  }

  /** Some entry of `items` contains `needle` once lower-cased. */
  predicate AnyContains(items: seq<string>, needle: string) {
    exists i :: 0 <= i < |items| && Contains(ToLower(items[i]), needle)
  }

  /** The search callback: `needle` is the lower-cased query. */
  predicate MatchesSearch(f: MediaFile, needle: string) {
    if Contains(ToLower(f.name), needle) then true
    else if f.hasMetadata && f.aiAnalysis.Some? then
      var ai := f.aiAnalysis.value;
      AnyContains(ai.tags, needle)
      || AnyContains(ai.topics, needle)
      || (ai.transcript != "" && Contains(ToLower(ai.transcript), needle))
      || (ai.extractedText != "" && Contains(ToLower(ai.extractedText), needle))
    else false
  }

  /** A search applies when `searchText` is given and non-empty. */
  predicate SearchActive(searchText: Option<string>) {
    searchText.Some? && searchText.value != ""
  }

  function ApplySearch(files: seq<MediaFile>, searchText: Option<string>): seq<MediaFile> {
    if SearchActive(searchText) then
      var searchLower := ToLower(searchText.value);
      Filter(files, (f: MediaFile) => MatchesSearch(f, searchLower))
    else files
  }

  /** The list after null-dropping, the type filter and the search, before
      pagination. */
  function FilteredFiles(listing: seq<ListedObject>, docs: seq<MetadataDoc>, q: FilesQuery, now: int, bucket: string)
    : seq<MediaFile>
  {
    var processed := Survivors(AllReconciled(listing, MetadataIndex(docs), now, bucket));
    ApplySearch(ApplyTypeFilter(processed, q.fileType), q.searchText)
  }

  /** The response of the route for a listing and a snapshot; `None` for
      either means that SDK call threw. */
  function FilesResult(listing: Option<seq<ListedObject>>, snapshot: Option<seq<MetadataDoc>>, q: FilesQuery,
                       now: int, bucket: string): FilesResponse
  {
    if listing.None? || snapshot.None? then FilesFailed
    else
      var limit := q.limit.GetOr(DefaultLimit);
      var offset := q.offset.GetOr(DefaultOffset);
      var filtered := FilteredFiles(listing.value, snapshot.value, q, now, bucket);
      FilesOk(JsSlice(filtered, offset, offset + limit), |filtered|, limit, offset)
  }

  /** The route, step by step: build the map, process every object, drop the
      failures, filter by type, search, paginate. */
  method ListFiles(listing: Option<seq<ListedObject>>, snapshot: Option<seq<MetadataDoc>>, q: FilesQuery,
                   now: int, bucket: string) returns (resp: FilesResponse)
    ensures resp == FilesResult(listing, snapshot, q, now, bucket)
  {
    var limit := q.limit.GetOr(DefaultLimit);
    var offset := q.offset.GetOr(DefaultOffset);
    if listing.None? || snapshot.None? {
      return FilesFailed;
    }
    var files := listing.value;
    var metadataMap := BuildMetadataMap(snapshot.value);
    var results: seq<Option<MediaFile>> := [];
    var i := 0;
    while i < |files|
      invariant 0 <= i <= |files|
      invariant |results| == i
      invariant forall j :: 0 <= j < i ==> results[j] == Reconciled(files[j], metadataMap, now, bucket)
    {
      var r := ReconcileFile(files[i], metadataMap, now, bucket);
      results := results + [r];
      i := i + 1;
    }
    assert results == AllReconciled(files, metadataMap, now, bucket);
    var processedFiles := Survivors(results);
    if q.fileType.Some? && q.fileType.value != "" && q.fileType.value != "all" {
      processedFiles := Filter(processedFiles, (f: MediaFile) => KindName(f.fileType) == q.fileType.value);
    }
    if q.searchText.Some? && q.searchText.value != "" {
      var searchLower := ToLower(q.searchText.value);
      processedFiles := Filter(processedFiles, (f: MediaFile) => MatchesSearch(f, searchLower));
    }
    var paginatedFiles := JsSlice(processedFiles, offset, offset + limit);
    resp := FilesOk(paginatedFiles, |processedFiles|, limit, offset);
  }

  /** With a type other than `all`, every file kept has that type, every
      file of that type is kept, and the order is kept; otherwise the list
      passes through unchanged. */
  lemma TypeFilterKeepsKind(files: seq<MediaFile>, fileType: Option<string>)
    ensures var r := ApplyTypeFilter(files, fileType);
      && SubsequenceOf(r, files)
      && (TypeFilterActive(fileType) ==> forall f :: f in r <==> f in files && KindName(f.fileType) == fileType.value)
      && (!TypeFilterActive(fileType) ==> r == files)
  {
    if TypeFilterActive(fileType) {
      FilterKeepsPassing(files, (f: MediaFile) => KindName(f.fileType) == fileType.value);
    } else {
      SubsequenceReflexive(files);
    }
  }

  /** `hasMetadata` and `aiAnalysis` go together, as the listing builds them. */
  predicate WellFormed(f: MediaFile) {
    f.hasMetadata <==> f.aiAnalysis.Some?
  }

  /** For a non-empty query, a file matches iff its lower-cased name contains
      the lower-cased query, or it has metadata and one of its tags or topics,
      its transcript or its extracted text contains it. */
  lemma SearchMatchIff(f: MediaFile, query: string)
    requires WellFormed(f) && query != ""
    ensures var q := ToLower(query);
      MatchesSearch(f, q) <==>
        Contains(ToLower(f.name), q)
        || (f.hasMetadata &&
              ((exists i :: 0 <= i < |f.aiAnalysis.value.tags| && Contains(ToLower(f.aiAnalysis.value.tags[i]), q))
               || (exists i :: 0 <= i < |f.aiAnalysis.value.topics| && Contains(ToLower(f.aiAnalysis.value.topics[i]), q))
               || Contains(ToLower(f.aiAnalysis.value.transcript), q)
               || Contains(ToLower(f.aiAnalysis.value.extractedText), q)))
  {
    var q := ToLower(query);
    assert q != [];
    ContainsEmpty("", q);
  }

  /** Without metadata only the name is searched. */
  lemma SearchIgnoresMetadataWithout(f: MediaFile, needle: string)
    requires !f.hasMetadata
    ensures MatchesSearch(f, needle) <==> Contains(ToLower(f.name), needle)
  {
  }

  /** The search keeps, in order, exactly the files that match; an absent or
      empty query keeps every file. */
  lemma SearchKeepsMatches(files: seq<MediaFile>, searchText: Option<string>)
    ensures var r := ApplySearch(files, searchText);
      && SubsequenceOf(r, files)
      && (SearchActive(searchText) ==>
            forall f :: f in r <==> f in files && MatchesSearch(f, ToLower(searchText.value)))
      && (!SearchActive(searchText) ==> r == files)
  {
    if SearchActive(searchText) {
      var searchLower := ToLower(searchText.value);
      FilterKeepsPassing(files, (f: MediaFile) => MatchesSearch(f, searchLower));
    } else {
      SubsequenceReflexive(files);
    }
  }

  /** Every file the listing produces is well formed. */
  lemma ProcessedWellFormed(listing: seq<ListedObject>, index: map<string, MetadataDoc>, now: int, bucket: string)
    ensures forall f :: f in Survivors(AllReconciled(listing, index, now, bucket)) ==> WellFormed(f)
  {
    var rs := AllReconciled(listing, index, now, bucket);
    SurvivorsKeepOrder(rs);
    forall f: MediaFile | f in Survivors(rs) ensures WellFormed(f) {
      var i :| 0 <= i < |rs| && rs[i] == Some(f);
      assert Reconciled(listing[i], index, now, bucket) == Some(f);
    }
  }

  /** The files that survive processing are those whose SDK calls succeeded,
      in listing order, and a file has metadata exactly when its bucket name
      is a `fileName` some document of the snapshot carries. */
  lemma {:induction false} JoinByFileName(listing: seq<ListedObject>, docs: seq<MetadataDoc>, now: int, bucket: string)
    ensures var processed := Survivors(AllReconciled(listing, MetadataIndex(docs), now, bucket));
      && SubsequenceOf(Lift(processed), AllReconciled(listing, MetadataIndex(docs), now, bucket))
      && (forall f :: f in processed ==>
            (f.hasMetadata <==> exists i :: 0 <= i < |docs| && IndexKey(docs[i]) == Some(f.fileName)))
      && (forall k :: 0 <= k < |listing| && listing[k].metadata.Some? && listing[k].signedUrl.Some? ==>
            exists f :: f in processed && f.id == listing[k].name)
  {
    var index := MetadataIndex(docs);
    var rs := AllReconciled(listing, index, now, bucket);
    SurvivorsKeepOrder(rs);
    forall f: MediaFile | f in Survivors(rs)
      ensures f.hasMetadata <==> exists i :: 0 <= i < |docs| && IndexKey(docs[i]) == Some(f.fileName)
    {
      var i :| 0 <= i < |rs| && rs[i] == Some(f);
      assert Reconciled(listing[i], index, now, bucket) == Some(f);
      MetadataIndexKeys(docs, f.fileName);
    }
    forall k | 0 <= k < |listing| && listing[k].metadata.Some? && listing[k].signedUrl.Some?
      ensures exists f :: f in Survivors(rs) && f.id == listing[k].name
    {
      assert rs[k] == Reconciled(listing[k], index, now, bucket);
      assert rs[k].value in Survivors(rs);
    }
  }

  /** `page` is what `slice(offset, offset + limit)` cuts from `filtered`:
      the entries from `offset` on, as many as `limit` allows and the list
      holds. It keeps the order of `processed`, and every entry on it has the
      requested type and matches the query. */
  predicate IsPage(page: seq<MediaFile>, filtered: seq<MediaFile>, processed: seq<MediaFile>, q: FilesQuery,
                   offset: int, limit: int) {
    && |page| <= limit
    && |page| == (if offset >= |filtered| then 0 else if offset + limit <= |filtered| then limit else |filtered| - offset)
    && (forall k :: 0 <= k < |page| ==> 0 <= offset + k < |filtered| && page[k] == filtered[offset + k])
    && SubsequenceOf(page, processed)
    && (forall f :: f in page && TypeFilterActive(q.fileType) ==> KindName(f.fileType) == q.fileType.value)
    && (forall f :: f in page && SearchActive(q.searchText) ==> MatchesSearch(f, ToLower(q.searchText.value)))
  }

  /** What `GET /api/files` returns once both store reads succeed: `total` is
      the length of the filtered list, and the files are the page of it that
      `limit` and `offset` select. */
  lemma ListFilesResponse(listing: seq<ListedObject>, docs: seq<MetadataDoc>, q: FilesQuery, now: int, bucket: string)
    requires q.limit.GetOr(DefaultLimit) >= 0 && q.offset.GetOr(DefaultOffset) >= 0
    ensures var resp := FilesResult(Some(listing), Some(docs), q, now, bucket);
      var filtered := FilteredFiles(listing, docs, q, now, bucket);
      var processed := Survivors(AllReconciled(listing, MetadataIndex(docs), now, bucket));
      && resp.FilesOk?
      && resp.total == |filtered|
      && resp.limit == q.limit.GetOr(DefaultLimit) && resp.offset == q.offset.GetOr(DefaultOffset)
      && IsPage(resp.files, filtered, processed, q, resp.offset, resp.limit)
  {
    var filtered := FilteredFiles(listing, docs, q, now, bucket);
    var processed := Survivors(AllReconciled(listing, MetadataIndex(docs), now, bucket));
    var limit, offset := q.limit.GetOr(DefaultLimit), q.offset.GetOr(DefaultOffset);
    assert FilesResult(Some(listing), Some(docs), q, now, bucket)
        == FilesOk(JsSlice(filtered, offset, offset + limit), |filtered|, limit, offset);
    FilteredListFacts(listing, docs, q, now, bucket);
    PageOfFiltered(processed, filtered, q, offset, limit);
  }

  /** The filtered list keeps the order of the processed files, and every
      entry on it has the requested type and matches the query. */
  lemma FilteredListFacts(listing: seq<ListedObject>, docs: seq<MetadataDoc>, q: FilesQuery, now: int, bucket: string)
    ensures var filtered := FilteredFiles(listing, docs, q, now, bucket);
      var processed := Survivors(AllReconciled(listing, MetadataIndex(docs), now, bucket));
      && SubsequenceOf(filtered, processed)
      && (forall f :: f in filtered && TypeFilterActive(q.fileType) ==> KindName(f.fileType) == q.fileType.value)
      && (forall f :: f in filtered && SearchActive(q.searchText) ==> MatchesSearch(f, ToLower(q.searchText.value)))
  {
    var processed := Survivors(AllReconciled(listing, MetadataIndex(docs), now, bucket));
    var typed := ApplyTypeFilter(processed, q.fileType);
    var filtered := ApplySearch(typed, q.searchText);
    assert filtered == FilteredFiles(listing, docs, q, now, bucket);
    TypeFilterKeepsKind(processed, q.fileType);
    SearchKeepsMatches(typed, q.searchText);
    SubsequenceTransitive(filtered, typed, processed);
  }

  /** The pagination step of `ListFilesResponse`: the page is the block of
      the filtered list from `offset`, and inherits its properties. */
  lemma PageOfFiltered(processed: seq<MediaFile>, filtered: seq<MediaFile>, q: FilesQuery, offset: int, limit: int)
    requires 0 <= offset && 0 <= limit
    requires SubsequenceOf(filtered, processed)
    requires forall f :: f in filtered && TypeFilterActive(q.fileType) ==> KindName(f.fileType) == q.fileType.value
    requires forall f :: f in filtered && SearchActive(q.searchText) ==> MatchesSearch(f, ToLower(q.searchText.value))
    ensures IsPage(JsSlice(filtered, offset, offset + limit), filtered, processed, q, offset, limit)
  {
    var page := JsSlice(filtered, offset, offset + limit);
    SlicePage(filtered, offset, limit);
    SubsequenceTransitive(page, filtered, processed);
    SubsequenceMembers(page, filtered);
  }

  /** Without query parameters the route returns the first 100 processed
      files, and `total` counts them all. */
  lemma ListFilesDefaults(listing: seq<ListedObject>, docs: seq<MetadataDoc>, now: int, bucket: string)
    ensures var resp := FilesResult(Some(listing), Some(docs), FilesQuery(None, None, None, None), now, bucket);
      var processed := Survivors(AllReconciled(listing, MetadataIndex(docs), now, bucket));
      && resp == FilesOk(JsSlice(processed, 0, 100), |processed|, 100, 0)
      && resp.files == processed[..if |processed| < 100 then |processed| else 100]
  {
  }

  /** A failed listing or snapshot read fails the whole request. */
  lemma ListFilesFailure(listing: Option<seq<ListedObject>>, snapshot: Option<seq<MetadataDoc>>, q: FilesQuery,
                         now: int, bucket: string)
    requires listing.None? || snapshot.None?
    ensures FilesResult(listing, snapshot, q, now, bucket) == FilesFailed
  {
  }
}
