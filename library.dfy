/** The media library page (`MediaLibrary`): the list it keeps, how it sorts
    it, the sort controls, the client-side upload checks, and how the list
    changes after an upload, a delete or a refresh. Server replies and the
    user's confirmation are inputs of the handlers. */
module Library {
  import opened Wrappers
  import opened Text
  import opened Seqs
  import opened Media
  import UploadRoute
  import FilesRoute

  datatype SortField = ByName | ByCreatedAt
  datatype SortOrder = Asc | Desc

  /** The client's own copy of the size limit: 100 MiB. */
  const MaxFileSize: int := 100 * 1024 * 1024

  /** The client's own copy of the allow-lists. */
  const AudioExtensions: seq<string> := [".mp3", ".wav", ".flac"]
  const VideoExtensions: seq<string> := [".mp4", ".avi", ".mov", ".mkv"]
  const ImageExtensions: seq<string> := [".jpg", ".jpeg", ".png", ".gif", ".bmp", ".webp"]

  // ---------------------------------------------------------------------
  // Sorting

  /** Name comparison: lexicographic by character code, in place of the
      browser's `localeCompare`; the result is -1, 0 or 1. */
  function LexCompare(a: string, b: string): (c: int)
    ensures -1 <= c <= 1
  {
    if a == [] then (if b == [] then 0 else -1)
    else if b == [] then 1
    else if a[0] < b[0] then -1
    else if a[0] > b[0] then 1
    else LexCompare(a[1..], b[1..])
  }

  /** Names compare equal exactly when they are the same. */
  lemma {:induction false} LexCompareZero(a: string, b: string)
    ensures LexCompare(a, b) == 0 <==> a == b
  {
    if a != [] && b != [] && a[0] == b[0] {
      LexCompareZero(a[1..], b[1..]);
      assert a == [a[0]] + a[1..] && b == [b[0]] + b[1..];
    }
  }

  lemma {:induction false} LexCompareAntisymmetric(a: string, b: string)
    ensures LexCompare(a, b) == -LexCompare(b, a)
  {
    if a != [] && b != [] && a[0] == b[0] {
      LexCompareAntisymmetric(a[1..], b[1..]);
    }
  }

  lemma {:induction false} LexCompareTransitive(a: string, b: string, c: string)
    requires LexCompare(a, b) <= 0 && LexCompare(b, c) <= 0
    ensures LexCompare(a, c) <= 0
  {
    if a != [] && b != [] && c != [] && a[0] == b[0] == c[0] {
      LexCompareTransitive(a[1..], b[1..], c[1..]);
    }
  }

  /** The comparator of `sortFiles`: names, or creation times as a
      difference, negated for descending order. */
  function Compare(a: MediaFile, b: MediaFile, field: SortField, order: SortOrder): int {
    var comparison := match field
      case ByName => LexCompare(a.name, b.name)
      case ByCreatedAt => a.createdAt - b.createdAt;
    if order == Asc then comparison else -comparison
  }

  lemma CompareAntisymmetric(a: MediaFile, b: MediaFile, field: SortField, order: SortOrder)
    ensures Compare(a, b, field, order) == -Compare(b, a, field, order)
  {
    LexCompareAntisymmetric(a.name, b.name);
  }

  lemma CompareTransitive(a: MediaFile, b: MediaFile, c: MediaFile, field: SortField, order: SortOrder)
    requires Compare(a, b, field, order) <= 0 && Compare(b, c, field, order) <= 0
    ensures Compare(a, c, field, order) <= 0
  {
    if field == ByName {
      if order == Asc {
        LexCompareTransitive(a.name, b.name, c.name);
      } else {
        LexCompareAntisymmetric(a.name, b.name);
        LexCompareAntisymmetric(b.name, c.name);
        LexCompareAntisymmetric(a.name, c.name);
        LexCompareTransitive(c.name, b.name, a.name);
      }
    }
  }

  /** Each entry is in order with the next one. */
  ghost predicate Sorted(s: seq<MediaFile>, field: SortField, order: SortOrder) {
    |s| < 2 || (Compare(s[0], s[1], field, order) <= 0 && Sorted(s[1..], field, order))
  }

  /** In a sorted list no pair of entries, adjacent or not, is out of order. */
  lemma {:induction false} SortedAllPairs(s: seq<MediaFile>, field: SortField, order: SortOrder)
    requires Sorted(s, field, order)
    ensures forall i, j :: 0 <= i < j < |s| ==> Compare(s[i], s[j], field, order) <= 0
  {
    if |s| >= 2 {
      var rest := s[1..];
      SortedAllPairs(rest, field, order);
      forall i, j | 0 <= i < j < |s| ensures Compare(s[i], s[j], field, order) <= 0 {
        if i == 0 {
          if j > 1 {
            assert rest[0] == s[1] && rest[j - 1] == s[j];
            CompareTransitive(s[0], s[1], s[j], field, order);
          }
        } else {
          assert rest[i - 1] == s[i] && rest[j - 1] == s[j];
        }
      }
    }
  }

  /** Places `x` before the first entry it does not come after. */
  function Insert(x: MediaFile, s: seq<MediaFile>, field: SortField, order: SortOrder): seq<MediaFile> {
    if s == [] then [x]
    else if Compare(x, s[0], field, order) <= 0 then [x] + s
    else [s[0]] + Insert(x, s[1..], field, order)
  }

  lemma {:induction false} InsertPermutes(x: MediaFile, s: seq<MediaFile>, field: SortField, order: SortOrder)
    ensures multiset(Insert(x, s, field, order)) == multiset(s) + multiset{x}
  {
    if s != [] && Compare(x, s[0], field, order) > 0 {
      InsertPermutes(x, s[1..], field, order);
      assert s == [s[0]] + s[1..];
    }
  }

  lemma {:induction false} InsertSorted(x: MediaFile, s: seq<MediaFile>, field: SortField, order: SortOrder)
    requires Sorted(s, field, order)
    ensures Sorted(Insert(x, s, field, order), field, order)
  {
    if s == [] {
    } else if Compare(x, s[0], field, order) <= 0 {
      assert ([x] + s)[1..] == s;
    } else {
      var rest := s[1..];
      InsertSorted(x, rest, field, order);
      CompareAntisymmetric(x, s[0], field, order);
      var r := Insert(x, rest, field, order);
      assert r[0] == x || (rest != [] && r[0] == rest[0]);
      assert ([s[0]] + r)[1..] == r;
    }
  }

  /** `sortFiles`: a sorted copy of the list (insertion sort; like the
      browser's sort it is stable, so entries that compare equal keep their
      order). */
  function SortFiles(s: seq<MediaFile>, field: SortField, order: SortOrder): seq<MediaFile> {
    if s == [] then [] else Insert(s[0], SortFiles(s[1..], field, order), field, order)
  }

  /** Sorting returns a permutation of its input. */
  lemma {:induction false} SortFilesPermutes(s: seq<MediaFile>, field: SortField, order: SortOrder)
    ensures multiset(SortFiles(s, field, order)) == multiset(s)
    ensures |SortFiles(s, field, order)| == |s|
  {
    if s != [] {
      SortFilesPermutes(s[1..], field, order);
      InsertPermutes(s[0], SortFiles(s[1..], field, order), field, order);
      assert s == [s[0]] + s[1..];
      assert |multiset(SortFiles(s, field, order))| == |multiset(s)|;
    }
  }

  /** Sorting returns a sorted list. */
  lemma {:induction false} SortFilesSorted(s: seq<MediaFile>, field: SortField, order: SortOrder)
    ensures Sorted(SortFiles(s, field, order), field, order)
  {
    if s != [] {
      SortFilesSorted(s[1..], field, order);
      InsertSorted(s[0], SortFiles(s[1..], field, order), field, order);
    }
  }
  /** The sorted copy is sorted and holds exactly the entries of the input. */
  lemma SortFilesMembers(s: seq<MediaFile>, field: SortField, order: SortOrder)
    ensures Sorted(SortFiles(s, field, order), field, order)
    ensures forall f :: f in SortFiles(s, field, order) <==> f in s
  {
    var r := SortFiles(s, field, order);
    SortFilesSorted(s, field, order);
    SortFilesPermutes(s, field, order);
    forall f ensures f in r <==> f in s {
      assert f in r <==> f in multiset(r);
    }
  }


  /** The entries of `s` that compare equal to `e`, in their order in `s`. */
  function Ties(s: seq<MediaFile>, e: MediaFile, field: SortField, order: SortOrder): seq<MediaFile> {
    if s == [] then []
    else (if Compare(s[0], e, field, order) == 0 then [s[0]] else []) + Ties(s[1..], e, field, order)
  }

  /** Inserting `x` puts it ahead of every entry it ties with. */
  lemma {:induction false} InsertTies(x: MediaFile, s: seq<MediaFile>, e: MediaFile, field: SortField, order: SortOrder)
    ensures Ties(Insert(x, s, field, order), e, field, order)
         == (if Compare(x, e, field, order) == 0 then [x] else []) + Ties(s, e, field, order)
  {
    if s != [] && Compare(x, s[0], field, order) > 0 {
      InsertTies(x, s[1..], e, field, order);
      if Compare(x, e, field, order) == 0 && Compare(s[0], e, field, order) == 0 {
        CompareAntisymmetric(s[0], e, field, order);
        CompareTransitive(x, e, s[0], field, order);
      }
      assert ([s[0]] + Insert(x, s[1..], field, order))[1..] == Insert(x, s[1..], field, order);
    } else if s != [] {
      assert ([x] + s)[1..] == s;
    }
  }

  /** Sorting is stable: entries that compare equal keep their relative
      order. */
  lemma {:induction false} SortFilesStable(s: seq<MediaFile>, e: MediaFile, field: SortField, order: SortOrder)
    ensures Ties(SortFiles(s, field, order), e, field, order) == Ties(s, e, field, order)
  {
    if s != [] {
      SortFilesStable(s[1..], e, field, order);
      InsertTies(s[0], SortFiles(s[1..], field, order), e, field, order);
    }
  }

  /** What the sorted copy looks like: the same entries, and non-decreasing
      by the chosen key when ascending, non-increasing when descending. */
  lemma SortFilesOrdering(s: seq<MediaFile>, field: SortField, order: SortOrder)
    ensures var r := SortFiles(s, field, order);
      && multiset(r) == multiset(s)
      && (field == ByCreatedAt && order == Asc ==>
            forall i, j :: 0 <= i < j < |r| ==> r[i].createdAt <= r[j].createdAt)
      && (field == ByCreatedAt && order == Desc ==>
            forall i, j :: 0 <= i < j < |r| ==> r[i].createdAt >= r[j].createdAt)
      && (field == ByName && order == Asc ==>
            forall i, j :: 0 <= i < j < |r| ==> LexCompare(r[i].name, r[j].name) <= 0)
      && (field == ByName && order == Desc ==>
            forall i, j :: 0 <= i < j < |r| ==> LexCompare(r[i].name, r[j].name) >= 0)
  {
    SortFilesPermutes(s, field, order);
    SortFilesSorted(s, field, order);
    SortedAllPairs(SortFiles(s, field, order), field, order);
  }

  // ---------------------------------------------------------------------
  // Sort controls

  function Flip(order: SortOrder): SortOrder {
    if order == Asc then Desc else Asc
  }

  /** The order a field starts with when first chosen. */
  function DefaultOrder(field: SortField): SortOrder {
    if field == ByCreatedAt then Desc else Asc
  }

  /** `handleSortChange`: the sort state after clicking `clicked`. */
  function NextSort(field: SortField, order: SortOrder, clicked: SortField): (r: (SortField, SortOrder)) {
    if field == clicked then (field, Flip(order)) else (clicked, DefaultOrder(clicked))
  }

  /** Clicking a field always makes it the sort field; clicking the current
      field reverses the order, clicking another gives its default order. */
  lemma NextSortEffect(field: SortField, order: SortOrder, clicked: SortField)
    ensures NextSort(field, order, clicked).0 == clicked
    ensures clicked == field ==> NextSort(field, order, clicked).1 != order
    ensures clicked != field && clicked == ByCreatedAt ==> NextSort(field, order, clicked).1 == Desc
    ensures clicked != field && clicked == ByName ==> NextSort(field, order, clicked).1 == Asc
  {
  }

  /** Two clicks on the current field restore the state. */
  lemma NextSortTwice(field: SortField, order: SortOrder)
    ensures var (f, o) := NextSort(field, order, field); NextSort(f, o, field) == (field, order)
  {
  }

  // ---------------------------------------------------------------------
  // Client-side upload checks

  datatype Validation = Validation(valid: bool, fileType: FileKind)

  /** `validateFileExtension`. */
  function ValidateFileExtension(name: string): Validation {
    var fileName := ToLower(name);
    var fileExt := Substring(fileName, LastIndexOf(fileName, '.'));
    if fileExt in AudioExtensions then Validation(true, Audio)
    else if fileExt in VideoExtensions then Validation(true, Video)
    else if fileExt in ImageExtensions then Validation(true, Image)
    else Validation(false, Unknown)
  }

  /** The client accepts and classifies exactly as the upload route does. */
  lemma ValidationAgreesWithRoute(name: string)
    ensures var v := ValidateFileExtension(name);
      var k := UploadRoute.AllowedKind(UploadRoute.Extension(name));
      && (v.valid <==> k.Some?)
      && (v.valid ==> v.fileType == k.value)
      && (!v.valid ==> v.fileType == Unknown)
  {
    assert AudioExtensions == UploadRoute.AudioExtensions;
    assert VideoExtensions == UploadRoute.VideoExtensions;
    assert ImageExtensions == UploadRoute.ImageExtensions;
  }

  /** A file the page lets through also passes the route's validation. */
  lemma ClientChecksMatchRoute(name: string, size: nat, contentType: string)
    ensures (size <= MaxFileSize && ValidateFileExtension(name).valid) <==>
            UploadRoute.Admissible(Some(UploadRoute.IncomingFile(name, size, contentType)))
  {
    ValidationAgreesWithRoute(name);
  }

  // ---------------------------------------------------------------------
  // Status badge

  /** `getStatusText`. */
  function StatusText(status: string): (text: string)
    ensures (status != "completed" && status != "processing" && status != "uploaded" && status != "error")
              ==> text == status
  {
    match status
    case "completed" => "Completed"
    case "processing" => "Processed"
    case "uploaded" => "Processed"
    case "error" => "Error"
    case _ => status
  }

  /** Both `processing` and `uploaded` read "Processed", so the badge does not
      tell a recent upload from one whose analysis is overdue. */
  lemma StatusTextOfStatuses()
    ensures StatusText(StatusName(Processing)) == "Processed"
    ensures StatusText(StatusName(Uploaded)) == "Processed"
    ensures StatusText(StatusName(Completed)) == "Completed"
    ensures StatusText(StatusName(Error)) == "Error"
  {
  }

  // ---------------------------------------------------------------------
  // List updates

  /** The record the page adds after a successful upload. */
  function NewFile(u: UploadRoute.UploadedFile): (f: MediaFile)
    ensures f.id == u.id && f.name == u.name && f.fileName == u.fileName && f.fileType == u.fileType
    ensures f.status == Uploaded && !f.hasMetadata && f.aiAnalysis.None?
  {
    MediaFile(
      id := u.id, name := u.name, fileName := u.fileName, fileType := u.fileType, size := u.size,
      contentType := Some(u.contentType), status := Uploaded, createdAt := u.createdAt,
      downloadUrl := u.downloadUrl, previewUrl := u.previewUrl, publicUrl := u.publicUrl,
      hasMetadata := false, aiAnalysis := None)
  }

  /** `files.filter((file) => file.id !== fileId)`. */
  function RemoveById(files: seq<MediaFile>, fileId: string): seq<MediaFile> {
    Filter(files, (f: MediaFile) => f.id != fileId)
  }

  /** Deleting removes exactly the entries with that id and keeps the rest,
      as often as they occurred and in their order. */
  lemma RemoveByIdExact(files: seq<MediaFile>, fileId: string)
    ensures var r := RemoveById(files, fileId);
      && SubsequenceOf(r, files)
      && (forall f :: f in r ==> f.id != fileId)
      && (forall f :: multiset(r)[f] == if f.id == fileId then 0 else multiset(files)[f])
  {
    FilterKeepsPassing(files, (f: MediaFile) => f.id != fileId);
  }

  /** The entries shown for the selected type (`all` shows every entry). */
  function OfSelectedType(files: seq<MediaFile>, selectedFileType: string): seq<MediaFile> {
    Filter(files, (f: MediaFile) => selectedFileType == "all" || KindName(f.fileType) == selectedFileType)
  }

  /** The errors the page shows in its alert. */
  datatype ClientError =
    | ClientTooLarge(size: nat)
    | ClientTypeNotAllowed
    | ServerError(error: UploadRoute.UploadError)
    | DeleteFailed
    | FetchFailed

  /** The file the user picked: its name and size in bytes. */
  datatype ClientFile = ClientFile(name: string, size: nat)

  /** The details dialog shows the file with that id. */
  predicate ShowsFile(selected: Option<MediaFile>, fileId: string) {
    selected.Some? && selected.value.id == fileId
  }

  /** What the page keeps true of its two lists: the shown list is sorted by
      the current key and holds only entries of the full list. */
  ghost predicate Consistent(files: seq<MediaFile>, shown: seq<MediaFile>, field: SortField, order: SortOrder) {
    Sorted(shown, field, order) && forall f :: f in shown ==> f in files
  }

  /** The page's state. */
  class MediaLibrary {
    var files: seq<MediaFile>
    var filteredFiles: seq<MediaFile>
    var selectedFileType: string
    var sortField: SortField
    var sortOrder: SortOrder
    var uploadError: Option<ClientError>
    var uploadSuccess: Option<string>
    var selectedFile: Option<MediaFile>
    var showDetails: bool

    /** The page's initial state: no files, newest first, all types. */
    constructor ()
      ensures Consistent(files, filteredFiles, sortField, sortOrder)
      ensures files == [] && filteredFiles == [] && selectedFileType == "all"
      ensures sortField == ByCreatedAt && sortOrder == Desc
      ensures uploadError.None? && uploadSuccess.None? && selectedFile.None? && !showDetails
    {
      files, filteredFiles := [], [];
      selectedFileType := "all";
      sortField, sortOrder := ByCreatedAt, Desc;
      uploadError, uploadSuccess := None, None;
      selectedFile, showDetails := None, false;
    }

    /** `handleSortChange`, followed by the effect that re-sorts the shown
        list whenever the sort controls change. */
    method HandleSortChange(field: SortField)
      requires Consistent(files, filteredFiles, sortField, sortOrder)
      modifies this
      ensures Consistent(files, filteredFiles, sortField, sortOrder)
      ensures (sortField, sortOrder) == NextSort(old(sortField), old(sortOrder), field)
      ensures filteredFiles == SortFiles(old(filteredFiles), sortField, sortOrder)
      ensures files == old(files) && selectedFileType == old(selectedFileType)
      ensures uploadError == old(uploadError) && uploadSuccess == old(uploadSuccess)
      ensures selectedFile == old(selectedFile) && showDetails == old(showDetails)
    {
      if sortField == field {
        sortOrder := if sortOrder == Asc then Desc else Asc;
      } else {
        sortField := field;
        sortOrder := if field == ByCreatedAt then Desc else Asc;
      }
      SortFilesMembers(filteredFiles, sortField, sortOrder);
      filteredFiles := SortFiles(filteredFiles, sortField, sortOrder);
    }

    /** The type selector. The refetch it triggers is `ApplyFetchResult`. */
    method SelectFileType(fileType: string)
      requires Consistent(files, filteredFiles, sortField, sortOrder)
      modifies this`selectedFileType
      ensures Consistent(files, filteredFiles, sortField, sortOrder) && selectedFileType == fileType
    {
      selectedFileType := fileType;
    }

    /** The successful or failed end of `fetchFiles`, given the route's reply. */
    method ApplyFetchResult(reply: FilesRoute.FilesResponse)
      requires Consistent(files, filteredFiles, sortField, sortOrder)
      modifies this
      ensures Consistent(files, filteredFiles, sortField, sortOrder)
      ensures reply.FilesOk? ==> files == reply.files && filteredFiles == SortFiles(reply.files, sortField, sortOrder)
      ensures reply.FilesFailed? ==> files == old(files) && filteredFiles == old(filteredFiles) && uploadError == Some(FetchFailed)
      ensures reply.FilesOk? ==> uploadError == old(uploadError)
      ensures sortField == old(sortField) && sortOrder == old(sortOrder) && selectedFileType == old(selectedFileType)
      ensures uploadSuccess == old(uploadSuccess) && selectedFile == old(selectedFile) && showDetails == old(showDetails)
    {
      if reply.FilesOk? {
        SortFilesMembers(reply.files, sortField, sortOrder);
        files := reply.files;
        filteredFiles := SortFiles(reply.files, sortField, sortOrder);
      } else {
        uploadError := Some(FetchFailed);
      }
    }

    /** `handleFileUpload`. `reply` is what the route answers; it is read only
        when the page's own checks pass and the request is sent. On success
        the new file goes first and the shown list becomes the whole list,
        sorted (the selected type is not reapplied). */
    method HandleFileUpload(file: ClientFile, reply: UploadRoute.UploadResponse)
      requires Consistent(files, filteredFiles, sortField, sortOrder)
      modifies this
      ensures Consistent(files, filteredFiles, sortField, sortOrder)
      ensures file.size > MaxFileSize ==>
                uploadError == Some(ClientTooLarge(file.size)) && files == old(files) && filteredFiles == old(filteredFiles)
      ensures file.size <= MaxFileSize && !ValidateFileExtension(file.name).valid ==>
                uploadError == Some(ClientTypeNotAllowed) && files == old(files) && filteredFiles == old(filteredFiles)
      ensures file.size <= MaxFileSize && ValidateFileExtension(file.name).valid && reply.Accepted? ==>
                && files == [NewFile(reply.file)] + old(files)
                && filteredFiles == SortFiles(files, sortField, sortOrder)
                && uploadError.None? && uploadSuccess == Some(file.name)
      ensures file.size <= MaxFileSize && ValidateFileExtension(file.name).valid && reply.Rejected? ==>
                uploadError == Some(ServerError(reply.error)) && files == old(files) && filteredFiles == old(filteredFiles)
      ensures uploadSuccess.Some? ==> uploadError.None?
      ensures sortField == old(sortField) && sortOrder == old(sortOrder) && selectedFileType == old(selectedFileType)
      ensures selectedFile == old(selectedFile) && showDetails == old(showDetails)
    {
      uploadError := None;
      uploadSuccess := None;
      if file.size > MaxFileSize {
        uploadError := Some(ClientTooLarge(file.size));
        return;
      }
      var validation := ValidateFileExtension(file.name);
      if !validation.valid {
        uploadError := Some(ClientTypeNotAllowed);
        return;
      }
      if reply.Accepted? {
        var newFile := NewFile(reply.file);
        var updatedFiles := [newFile] + files;
        SortFilesMembers(updatedFiles, sortField, sortOrder);
        var sortedFiles := SortFiles(updatedFiles, sortField, sortOrder);
        files := updatedFiles;
        filteredFiles := sortedFiles;
        uploadSuccess := Some(file.name);
      } else {
        uploadError := Some(ServerError(reply.error));
      }
    }

    /** `handleDeleteFile`. `confirmed` is the user's answer to the prompt and
        `deleted` whether the route reported success. */
    method HandleDeleteFile(fileId: string, confirmed: bool, deleted: bool)
      requires Consistent(files, filteredFiles, sortField, sortOrder)
      modifies this
      ensures Consistent(files, filteredFiles, sortField, sortOrder)
      ensures files == if confirmed && deleted then RemoveById(old(files), fileId) else old(files)
      ensures filteredFiles ==
                if confirmed && deleted then ShownAfterDelete(files, selectedFileType, sortField, sortOrder)
                else old(filteredFiles)
      ensures var closes := confirmed && deleted && ShowsFile(old(selectedFile), fileId);
                && selectedFile == (if closes then None else old(selectedFile))
                && showDetails == (if closes then false else old(showDetails))
      ensures uploadError == if confirmed && !deleted then Some(DeleteFailed) else old(uploadError)
      ensures sortField == old(sortField) && sortOrder == old(sortOrder) && selectedFileType == old(selectedFileType)
      ensures uploadSuccess == old(uploadSuccess)
    {
      if !confirmed {
        return;
      }
      if deleted {
        if ShowsFile(selectedFile, fileId) {
          showDetails := false;
          selectedFile := None;
        }
        RemoveFromState(fileId);
      } else {
        uploadError := Some(DeleteFailed);
      }
    }

    /** The list updates of a successful `handleDeleteFile`: drop the entries
        with that id and re-derive the shown list. */
    method RemoveFromState(fileId: string)
      modifies this`files, this`filteredFiles
      ensures Consistent(files, filteredFiles, sortField, sortOrder)
      ensures files == RemoveById(old(files), fileId)
      ensures filteredFiles == ShownAfterDelete(files, selectedFileType, sortField, sortOrder)
    {
      var updatedFiles := RemoveById(files, fileId);
      var sortedFiles := ShownAfterDelete(updatedFiles, selectedFileType, sortField, sortOrder);
      files, filteredFiles := updatedFiles, sortedFiles;
    }
  }

  /** The list shown after a delete: the remaining entries of the selected
      type, sorted. It is sorted and holds only remaining entries. */
  function ShownAfterDelete(remaining: seq<MediaFile>, selectedFileType: string, field: SortField, order: SortOrder)
    : (shown: seq<MediaFile>)
    ensures Sorted(shown, field, order) && forall f :: f in shown ==> f in remaining
  {
    var visible := OfSelectedType(remaining, selectedFileType);
    FilterSubmultiset(remaining, (f: MediaFile) => selectedFileType == "all" || KindName(f.fileType) == selectedFileType);
    SubmultisetMembers(visible, remaining);
    SortFilesMembers(visible, field, order);
    SortFiles(visible, field, order)
  }

  /** After a delete, the shown list is exactly the surviving entries of the
      selected type, each as often as it remains, none with the deleted id. */
  lemma DeletedListShown(files: seq<MediaFile>, fileId: string, selectedFileType: string,
                         field: SortField, order: SortOrder)
    ensures var shown := ShownAfterDelete(RemoveById(files, fileId), selectedFileType, field, order);
      && shown == SortFiles(OfSelectedType(RemoveById(files, fileId), selectedFileType), field, order)
      && (forall f :: f in shown ==> f.id != fileId)
      && (forall f :: multiset(shown)[f] ==
            if f.id != fileId && (selectedFileType == "all" || KindName(f.fileType) == selectedFileType)
            then multiset(files)[f] else 0)
  {
    var remaining := RemoveById(files, fileId);
    var visible := OfSelectedType(remaining, selectedFileType);
    var shown := SortFiles(visible, field, order);
    assert ShownAfterDelete(remaining, selectedFileType, field, order) == shown;
    RemoveByIdExact(files, fileId);
    FilterKeepsPassing(remaining, (f: MediaFile) => selectedFileType == "all" || KindName(f.fileType) == selectedFileType);
    SortFilesPermutes(visible, field, order);
    assert multiset(shown) == multiset(visible);
    forall f | f in shown ensures f.id != fileId {
      assert f in multiset(shown);
      assert multiset(remaining)[f] > 0;
    }
  }

}
