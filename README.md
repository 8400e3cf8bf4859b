# Media library core, modelled in Dafny

A media library stores images, videos and audio in a cloud bucket. An
external pipeline analyses each upload and writes a metadata document
(tags, detected objects, transcription, extracted text, scenes, topics)
into a document store. This project models the decision logic that sits
around the storage and database calls, and proves properties of it:

- **Listing route** (`GET /api/files`, `files_route.dfy`):
  - classifies each object's kind from its content type;
  - indexes the metadata snapshot by `fileName`;
  - derives each file's status, `hasMetadata` flag and AI-analysis record;
  - drops the objects whose storage calls failed;
  - filters by kind, runs a case-insensitive search over name and analysis, and paginates.
- **Upload route** (`POST /api/upload`, `upload_route.dfy`):
  - validates in order: missing file, size ceiling, extension allow-lists;
  - sanitises the name and builds the storage key `<timestamp>-<sanitised name>`;
  - issues the storage write and builds the response record.
- **Client page** (`MediaLibrary`, `library.dfy`):
  - the sort comparator and the sort controls;
  - the client's duplicate of the upload checks and the status badge text;
  - the page state as a class whose handlers apply a fetch result, an upload, a delete or a sort change.
- **Metadata panel** (`metadata_display.dfy`): the per-kind completeness rule, and the choice between the no-metadata, partial and complete views.

The remaining files are shared helpers:

- `wrappers.dfy`: `Option`.
- `text.dfy`: the JavaScript string built-ins used: `toLowerCase`, `includes`, `lastIndexOf`, `substring`, and number rendering.
- `seqs.dfy`: `filter`, `filter(Boolean)`, `slice`, and subsequences.
- `media.dfy`: the records shared by routes and page.

These values are inputs to the model:

- the clock (integer milliseconds);
- the bucket listing and the per-object SDK outcomes (`None` where a call throws);
- whether the upload route's `formData` and `arrayBuffer` reads return or throw;
- the metadata snapshot;
- the outcomes of the storage write and the signed-URL request;
- the server's replies to the page, and the user's answer to the delete confirmation.

Imperative code in the source is modelled as methods with loops or assignments, each proved equal to a specification function:

- the `forEach` that fills the metadata map: `BuildMetadataMap`;
- the `let status` chain and the per-object callback: `ReconcileFile`;
- the step-by-step reassignment of `processedFiles`: `ListFiles`;
- the upload route's `if`/`else if` ladder with early returns: `Upload`.

The page's React state is a class, `Library.MediaLibrary`, with one method per handler. Its invariant is `Library.Consistent`: the shown list is sorted by the current controls and holds only entries of the full list.

Some behaviours of the code are worth knowing:

- The sanitiser keeps the characters `[A-Za-z0-9.-]` and turns every other character into `_`. The output alphabet is therefore `[A-Za-z0-9._-]`, not `[A-Za-z0-9.-]`: `UploadRoute.SanitizeCharacters` states it that way.
- The listing route never produces the status `error`.
- After a successful upload, the page shows the whole list sorted and does not reapply the selected type. After a delete it does reapply it. Both are modelled as written.
- The status badge reads "Processed" for both `uploaded` and `processing`.

## Model

| member | source | states |
|---|---|---|
| FilesRoute.ContentKind | app/api/files/route.ts:21-26 | the kind is image, video or audio exactly when the content type starts with `image/`, `video/` or `audio/` |
| FilesRoute.KindPrefixesExclusive | app/api/files/route.ts:21-26 | no content type carries two of the three prefixes, so the classification is unambiguous |
| FilesRoute.ContentKindTotal | app/api/files/route.ts:21-26 | the kind is `unknown` exactly when none of the three prefixes is present |
| FilesRoute.ThumbnailUrl | app/api/files/route.ts:29-38 | an image previews from its public link, or from its media link when the public one is missing or empty; every other kind gets a fixed site-relative placeholder |
| FilesRoute.MetadataIndexKeys | app/api/files/route.ts:80-87 | a key is in the map exactly when some document carries it as a non-empty `fileName`; documents without one contribute nothing |
| FilesRoute.MetadataIndexLastWins | app/api/files/route.ts:80-87 | when several documents share a `fileName`, the map holds the last of them in snapshot order |
| FilesRoute.BuildMetadataMap | app/api/files/route.ts:80-87 | the `forEach` loop leaves exactly the map `MetadataIndex` describes |
| FilesRoute.Project | app/api/files/route.ts:148-156 | tags come from `tags`, else `object_tags`, else `[]`; a missing transcript or extracted text becomes `""`; missing scenes or topics become `[]` |
| FilesRoute.FileStatus | app/api/files/route.ts:109-123 | never `error`; `completed` iff metadata exists; `processing` iff there is none and the age exceeds 600000 ms; `uploaded` iff there is none and the age is at most that |
| FilesRoute.Reconciled | app/api/files/route.ts:93-162 | an object yields a record iff both its metadata and signed-URL calls succeed; `id` and `fileName` are the bucket name; `hasMetadata` iff that name is a key of the map; `aiAnalysis` is present iff `hasMetadata`, and is then the projection of that document; the status follows `FileStatus` with the object's age |
| FilesRoute.ReconciledNameAndKind | app/api/files/route.ts:98-145 | the shown name is the recorded original name when there is a non-empty one, else the bucket name; the kind follows the content type; the public URL is the bucket address of the object |
| FilesRoute.ReconcileFile | app/api/files/route.ts:93-162 | the per-object callback, with its `let status` chain and its two failure exits, returns exactly `Reconciled` |
| FilesRoute.ListFiles | app/api/files/route.ts:63-237 | the route as written (map, per-object loop, null drop, type filter, search, slice) returns exactly `FilesResult` |
| FilesRoute.TypeFilterKeepsKind | app/api/files/route.ts:168-171 | with a type other than `all`, a file is kept iff it has that type, and the result is an ordered subsequence; otherwise the list passes unchanged |
| FilesRoute.SearchMatchIff | app/api/files/route.ts:174-213 | for a non-empty query, a file matches iff its lower-cased name contains the lower-cased query, or it has metadata and a tag, a topic, the transcript or the extracted text contains it |
| FilesRoute.SearchIgnoresMetadataWithout | app/api/files/route.ts:180-185 | a file without metadata is matched on its name alone |
| FilesRoute.SearchKeepsMatches | app/api/files/route.ts:173-213 | the search keeps, in order, exactly the matching files; an absent or empty query keeps every file |
| FilesRoute.ProcessedWellFormed | app/api/files/route.ts:146-156 | every file the listing produces has an `aiAnalysis` exactly when `hasMetadata` holds |
| FilesRoute.JoinByFileName | app/api/files/route.ts:105-166 | the surviving files keep listing order; a file has metadata iff some document carries its bucket name as `fileName`; every object whose SDK calls succeed is among the survivors |
| FilesRoute.ListFilesResponse | app/api/files/route.ts:165-226 | once both store reads succeed: `total` is the length of the filtered list; the page is exactly the block of the filtered list from `offset`, of length `limit` or what is left of the list (none when `offset` is past the end), in order; it is a subsequence of the survivors; each file on it has the requested type and matches the query |
| FilesRoute.FilteredListFacts | app/api/files/route.ts:165-213 | the filtered list is an ordered subsequence of the survivors whose every entry has the requested type and matches the query |
| FilesRoute.PageOfFiltered | app/api/files/route.ts:216 | for a non-negative offset and limit, the slice has exactly `limit` elements, or the rest of the list when fewer remain, or none when `offset` is past the end; they are the ones from `offset` on, in order; the slice is a subsequence and inherits the type and search facts |
| FilesRoute.ListFilesDefaults | app/api/files/route.ts:68-69 | without parameters, the page is the first 100 surviving files, with limit 100, offset 0, and `total` counting all survivors |
| FilesRoute.ListFilesFailure | app/api/files/route.ts:227-236 | a failed bucket listing or snapshot read fails the whole request |
| Seqs.SurvivorsKeepOrder | app/api/files/route.ts:166 | `filter(Boolean)` keeps every successful result and no failure, in order |
| Seqs.SlicePage | app/api/files/route.ts:216 | `slice(offset, offset + limit)` has the exact length of the block from `offset`, its elements in order |
| Text.ContainsAt | app/api/files/route.ts:180 | `includes` holds iff a copy of the needle starts at some offset |
| Text.LastIndexOf | app/api/upload/route.ts:39 | the index of the last occurrence, or -1 exactly when there is none |
| UploadRoute.UploadError.HttpStatus | app/api/upload/route.ts:24-126 | a throw caught by the `catch` (form read, file read, write or signed-URL request) answers 500; every validation error answers 400 |
| UploadRoute.Extension | app/api/upload/route.ts:38-39 | the extension is a suffix of the lower-cased name; it is the whole name when there is no dot, and otherwise starts at the last dot and holds no other dot |
| UploadRoute.AllowedKind | app/api/upload/route.ts:41-53 | the kind is audio, video or image exactly when the extension is on that list; no kind when it is on none; never `unknown` |
| UploadRoute.AllowListsDisjoint | app/api/upload/route.ts:13-17 | no extension is on two lists |
| UploadRoute.AllowedStartsWithDot | app/api/upload/route.ts:13-17 | every allowed extension is a dot followed by at least one character |
| UploadRoute.NoDotRejected | app/api/upload/route.ts:38-55 | a name without a dot is never accepted |
| UploadRoute.ExtensionIgnoresCase | app/api/upload/route.ts:38-39 | names that agree once lower-cased are classified alike |
| UploadRoute.Sanitize | app/api/upload/route.ts:69 | sanitising keeps the length |
| UploadRoute.SanitizePointwise | app/api/upload/route.ts:69 | each character is replaced on its own |
| UploadRoute.SanitizeCharacters | app/api/upload/route.ts:69 | each output character is a kept character or `_`; kept characters stay; every other character becomes `_` |
| UploadRoute.SanitizeIdempotent | app/api/upload/route.ts:69 | sanitising twice equals sanitising once |
| UploadRoute.StorageKey | app/api/upload/route.ts:68-70 | the key is as long as the digits, a hyphen and the name |
| UploadRoute.StorageKeyRoundTrip | app/api/upload/route.ts:68-70 | the key splits back at its first hyphen into the timestamp and the sanitised name |
| UploadRoute.StorageKeysDistinct | app/api/upload/route.ts:68-70 | uploads at different milliseconds get different keys |
| UploadRoute.Upload | app/api/upload/route.ts:19-128 | a form read that throws answers `Upload failed`; then missing file, size and extension are rejected in that order; the storage write is issued iff all three checks pass and the file's bytes were read, with the key, content type, original name and upload time; the answer is accepted iff the write and the signed-URL request also succeed, with `id` = `fileName` = key, the original name, status `uploaded`, the allow-list kind (never `unknown`) and a preview link only for images; the accepted `id` parses back into the timestamp and the sanitised name |
| UploadRoute.SizeBoundary | app/api/upload/route.ts:29-35 | exactly 100 MiB passes the size check and one byte more does not |
| Library.LexCompare | app/page.tsx:92 | the name comparison returns -1, 0 or 1 |
| Library.LexCompareZero | app/page.tsx:92 | names compare equal exactly when they are identical |
| Library.LexCompareAntisymmetric | app/page.tsx:92 | swapping the names negates the comparison |
| Library.LexCompareTransitive | app/page.tsx:92 | the name order is transitive |
| Library.CompareAntisymmetric | app/page.tsx:88-98 | the comparator is antisymmetric for either key and either order |
| Library.CompareTransitive | app/page.tsx:88-98 | the comparator is transitive for either key and either order |
| Library.SortedAllPairs | app/page.tsx:88-98 | in a list sorted pair by adjacent pair, no two entries are out of order |
| Library.InsertPermutes | app/page.tsx:88 | inserting adds exactly the new entry |
| Library.InsertSorted | app/page.tsx:88 | inserting into a sorted list keeps it sorted |
| Library.SortFilesPermutes | app/page.tsx:86-101 | sorting returns a permutation of its input |
| Library.SortFilesSorted | app/page.tsx:86-101 | sorting returns a sorted list |
| Library.SortFilesMembers | app/page.tsx:88 | the sorted copy holds exactly the entries of the input |
| Library.SortFilesOrdering | app/page.tsx:88-98 | the result is a permutation; ascending by creation time it is non-decreasing and descending non-increasing; likewise by name |
| Library.SortFilesStable | app/page.tsx:88 | the sort is stable, as `Array.prototype.sort` is: the entries that compare equal to any given entry appear in the result in the order they had in the input |
| Library.NextSortEffect | app/page.tsx:416-425 | the clicked field becomes the sort field; clicking the current field reverses the order; a new field starts descending for the creation time and ascending for the name |
| Library.NextSortTwice | app/page.tsx:416-419 | two clicks on the current field restore the sort state |
| Library.ValidationAgreesWithRoute | app/page.tsx:155-168 | the page's extension check accepts exactly what the upload route accepts, with the same kind, and says `unknown` otherwise |
| Library.ClientChecksMatchRoute | app/page.tsx:176-194 | the page's size and extension checks pass exactly when the upload route's validation does |
| Library.StatusText | app/page.tsx:464-477 | an unknown status is shown as itself |
| Library.StatusTextOfStatuses | app/page.tsx:464-477 | `processing` and `uploaded` both read "Processed", `completed` reads "Completed", `error` reads "Error" |
| Library.NewFile | app/page.tsx:229-233 | the added record keeps the route's id, names and kind, with status `uploaded`, no metadata and no analysis |
| Library.RemoveByIdExact | app/page.tsx:308 | deleting drops exactly the entries with that id and keeps every other one, as often as it occurred and in order |
| Library.ShownAfterDelete | app/page.tsx:309-311 | the list shown after a delete is sorted and holds only remaining entries |
| Library.DeletedListShown | app/page.tsx:308-314 | after a delete, the shown list is the remaining entries of the selected type, sorted: none has the deleted id, and each remaining entry of that type appears as often as in the old list |
| Library.MediaLibrary.constructor | app/page.tsx:66-78 | the page starts with empty lists, type `all`, sorted by creation time descending, with no messages and no open details |
| Library.MediaLibrary.HandleSortChange | app/page.tsx:416-425 | the sort state becomes `NextSort` of the old one; the re-sort effect that follows (lines 104-106) re-sorts the shown list under the new key; nothing else changes; the invariant is kept |
| Library.MediaLibrary.SelectFileType | app/page.tsx:669 | the selector sets the selected type and leaves the lists as they are |
| Library.MediaLibrary.ApplyFetchResult | app/page.tsx:125-140 | a successful reply replaces the list and shows it sorted; a failed one keeps the lists and reports the failure |
| Library.MediaLibrary.HandleFileUpload | app/page.tsx:171-263 | an oversize file, then a disallowed extension, is refused before any request; an accepted upload prepends the new record and shows the whole list sorted; a refused one reports the route's error and keeps the lists |
| Library.MediaLibrary.HandleDeleteFile | app/page.tsx:294-330 | nothing happens without confirmation; a successful delete removes the entries with that id, re-derives the shown list and closes the details of the deleted file; a failed one reports it |
| Library.MediaLibrary.RemoveFromState | app/page.tsx:308-314 | the list loses the entries with that id and the shown list becomes `ShownAfterDelete` of the rest; the invariant holds |
| MetadataDisplay.IsIncomplete | components/metadata-display.tsx:14-53 | an image is incomplete iff tags or object tags are absent or empty; a video iff any of tags, object tags, transcription or topics is; audio iff transcription or topics is; any other type never is |
| MetadataDisplay.VideoNeedsImageAndAudio | components/metadata-display.tsx:16-48 | a video is incomplete exactly when it would be incomplete as an image or as audio |
| MetadataDisplay.IrrelevantFields | components/metadata-display.tsx:16-48 | audio completeness ignores tags, object tags, scenes and extracted text; image completeness ignores transcription, topics, scenes and extracted text |
| MetadataDisplay.MoreAnalysisStaysComplete | components/metadata-display.tsx:14-53 | filling in more analysis fields never turns a complete document incomplete |
| MetadataDisplay.EmptyDocIncomplete | components/metadata-display.tsx:14-48 | a document with no analysis fields is incomplete for image, video and audio |
| MetadataDisplay.SelectView | components/metadata-display.tsx:304-347 | missing metadata shows the notice; otherwise the partial view is shown iff the metadata is incomplete, and the complete view iff it is not |
| MetadataDisplay.OtherKindsShowComplete | components/metadata-display.tsx:50-51 | a file of another type with metadata always gets the complete view |

## Left out

- Storage and database calls: the SDK calls themselves are not modelled. Their results are inputs, and a call that throws is `None`:
  - bucket listing, `getMetadata`, `getSignedUrl`, `save`;
  - document-store queries;
  - the page's `fetch` calls.
- Signed URLs and the SDK's object links are opaque strings. `getThumbnailUrl` reads `file.publicUrl`, which the SDK defines as a method, not a string; the model treats it as an optional link.
- Concurrency and timing are not modelled:
  - `Promise.all` over the objects is a sequential loop, since its results are collected in listing order;
  - React effects and the progress timers are not modelled;
  - `fetchFiles` runs after a sort or type change and 5 s after an upload; the model does not schedule it. `ApplyFetchResult` is its completion.
- Stale closures are not modelled. `onDrop` is memoised with no dependencies, so drag-and-drop uploads see the first render's list; the handlers here read the current state.
- The multi-file upload loop (`handleMultipleFileUpload`) is not modelled. It awaits `handleFileUpload` once per file, but every call reads the same render's `files`, so until the next refetch only the last new file stays in the list. Calling the model's `HandleFileUpload` once per file in a row keeps them all.
- Formatted strings become error constructors, not text:
  - the texts of error messages, including the `toFixed(2)` sizes;
  - the success banner, which is modelled as the uploaded file's name.
- The listing route reads `Date.now()` once per object inside its callback; the model passes one `now` to every object. Objects near the 600000 ms age boundary can therefore get different statuses in one source response, but never in the model.
- Dates are integer milliseconds. ISO-string rendering and parsing, `toLocaleString` and the `uploadTime`/`processedAt` display are left out.
- `Number.parseInt` of the query parameters and of `metadata.size` is not modelled, and with it NaN on malformed input. Limit and offset are optional integers with the defaults 100 and 0.
- `localeCompare` on names is replaced by lexicographic order on character codes.
- `toLowerCase` lower-cases ASCII letters only, and characters are treated as single code units (no surrogate pairs).
- Metadata fields are assumed to hold lists or strings, as the pipeline writes them. Other JSON values and `Array.isArray` on non-arrays are not modelled.
- The page's search box (`searchQuery`) is not modelled; its text only travels to the listing route as `searchText`, which `FilesRoute` models. The loading, uploading and progress flags are left out too.
- The page's network failures (the `catch` branches of the fetch, upload and delete handlers) are not modelled separately. A failed delete is `deleted = false`; a failed listing fetch is `FilesFailed`.
- Rendering is not modelled: the JSX, the icons, the colours and the contents of the partial and complete views.
- `getMetadataForFile` in the listing route is never called by `GET`, so it is not part of this model.
- The detail view (`handleViewDetails` and the metadata route), downloads, the delete route and the search proxy route are not part of this model.
- FilesRoute.ListFilesResponse: stated for non-negative `limit` and `offset` only. Negative values are still handled by the model's `slice` (`Seqs.JsSlice` counts them back from the end), but no page property is claimed for them.
- Library.Consistent: the class invariant says that every shown entry is in the full list, not how often. The multiplicities after a delete are stated by `Library.DeletedListShown` instead.
- Library.MediaLibrary.HandleSortChange: the permutation property of the re-sort is not in its contract. It follows from its `filteredFiles == SortFiles(old(filteredFiles), …)` clause together with `Library.SortFilesPermutes`.
