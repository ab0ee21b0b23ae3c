# LokalDrive file-metadata engine, modelled in Dafny

LokalDrive is a small LAN file drive: an Express server stores uploaded blobs
in a directory and keeps a JSON metadata file holding a newest-first list of
file records; a React page lists, searches, uploads, deletes and AI-annotates
those files. This project models the pure logic of that metadata engine:

- the extension-based type classifier, in both copies (the server's upper-case
  tags and the client's lower-case `FileType`), including the meaning of
  `split('.').pop().toLowerCase()` with ASCII lowering;
- the server's handlers as functions on an `Index` (the record list plus the set
  of blob names): upload prepends a fresh record, delete splices out the first
  record with the id and unlinks its blob, patch merges an analysis result, and
  storage statistics sum the sizes and build the four-bucket breakdown;
- the client service's URL normalisation, its handling of failed replies, and
  its fallback statistics;
- the page's search filter and the updates it applies to its own list after an
  upload batch, a delete and an analysis, with the in-flight guard on analyses;
- how the page's list stays equal to a fresh listing of the server after each
  successful request, and the case where it does not: two records that share an
  id, which `Date.now()` ids allow.

Modules follow the source: `Text` (string operations of the JavaScript
runtime), `Seqs` (array methods), `Types` (types.ts), `Server` (server.js),
`FileService` (services/fileService.ts), `App` (App.tsx) and `Consistency`
(lemmas relating the three). Server replies, the confirm dialog, `Date.now()`
and timestamps enter as parameters. The record field `type` is called
`fileType`, since `type` is a Dafny keyword.

The model follows what the code does: ids are `Date.now()` strings and may
repeat, nothing checks for a duplicate id on insert, the metadata file is
rewritten in place, an upload that fails leaves its blob behind, and the
analysis fallback text comes from the client's analysis helper rather than from
the server. Note also that the server
stores upper-case tags (`"IMAGE"`) in `type` while the client's `FileType`
values are lower-case (`"image"`); `ClassifiersAgree` states the exact relation.

## Model

| member | source | states |
|---|---|---|
| Text.ToLower | server.js:56 | lowering keeps the length and leaves no upper-case ASCII letter |
| Text.LowerIdempotent | server.js:56 | lowering a lowered string changes nothing |
| Text.Split | server.js:56 | `split('.')` yields at least one piece and no piece contains the separator |
| Text.JoinSplit | server.js:56 | joining the pieces of a split with the separator gives back the original string |
| Text.SplitJoin | server.js:56 | splitting a join of separator-free pieces gives back the pieces |
| Text.LastPieceFollowsLastSeparator | server.js:56 | `pop()` of the split is the separator-free suffix that is the whole name or follows a separator |
| Text.LastPieceUnique | server.js:56 | at most one string is the separator-free text after the last separator |
| Text.NoSeparatorLastPieceIsWhole | server.js:56 | a name without a dot is its own last piece |
| Text.TrailingSeparatorLastPieceIsEmpty | services/fileService.ts:49 | an empty name or one ending in a dot has an empty last piece |
| Text.StartsWith | services/fileService.ts:71 | `startsWith` holds exactly when the prefix is no longer than the string and agrees with it character by character |
| Text.Includes | App.tsx:143-144 | a string only includes queries no longer than itself, and always includes the empty query |
| Text.IncludesIffOccurs | App.tsx:143-144 | `includes` holds exactly when the query occurs at some position |
| Seqs.Filter | App.tsx:142-145 | `filter` keeps exactly the elements that pass, each of them from the input, in their original order |
| Seqs.FilterCounts | App.tsx:84 | every value that passes keeps all of its occurrences, and every other value has none |
| Seqs.Map | services/fileService.ts:69-72 | `map` keeps the length and applies the function at every index |
| Seqs.RemoveAt | server.js:154 | `splice(i, 1)` keeps the elements before `i` and shifts those after it down by one |
| Seqs.RemoveAtIsSubsequence | server.js:154 | the spliced list keeps the remaining records in their order |
| Server.GetFileType | server.js:55-62 | the tag is one of five, and each of the four known tags is chosen exactly when the extension is in its list |
| Server.ReportPdfIsDocument | server.js:55-59 | `report.PDF` classifies as `DOCUMENT` |
| Server.DotlessZipIsArchive | server.js:55-62 | the dot-less name `zip` classifies as `ARCHIVE` |
| Server.EmptyExtensionIsOther | server.js:55-62 | an empty name or one ending in a dot has the empty extension and classifies as `OTHER` |
| Text.Extension | server.js:56 | the extension is dot-free, is the lower-cased suffix of the name of its own length, and is preceded by a dot unless it is the whole name |
| Text.ExtensionAfterOneDot | server.js:56 | a name with exactly one dot has the lower-cased text after that dot as its extension |
| Text.ExtensionIgnoresCase | services/fileService.ts:49 | lower-casing the name first does not change its extension |
| Server.ClassificationIgnoresCase | server.js:56 | lower-casing the name first does not change its tag |
| Server.Upload | server.js:104-125 | without a file the reply is an error and nothing changes; otherwise the fresh record (tag from the name, uploaded size, not analysed, empty description and tags) is put in front of the unchanged old list and its blob is added |
| Server.FindIndex | server.js:140 | `findIndex` gives -1 exactly when no record has the id, and otherwise the first index that has it |
| Server.Delete | server.js:137-157 | an unknown id replies not-found and changes nothing; otherwise exactly the first matching record is spliced out and its blob removed |
| Server.Merge | server.js:177-182 | only description, tags and the analysed flag change; the flag becomes true; a missing or empty description and missing tags keep the old values |
| Server.Patch | server.js:167-185 | an unknown id replies not-found and changes nothing; otherwise only the first matching record is replaced by the merge, the length and blobs unchanged |
| Server.TotalSize | server.js:197 | the used bytes are at least the size of every single record |
| Server.SizeOfType | server.js:199-202 | the bytes under one tag never exceed the used bytes |
| Server.SizeOfTypeIsFilteredTotal | server.js:199-202 | the bytes under one tag are exactly the used bytes of the records carrying that tag |
| Server.TwoTagsWithinTotal | server.js:199-202 | the bytes under two different tags together never exceed the used bytes, as each record is counted under one tag only |
| Server.Buckets | server.js:204-208 | four buckets named Images, Videos, Docs and Others, in that order: the bytes tagged IMAGE, VIDEO and DOCUMENT, and ARCHIVE plus OTHER; each within the used bytes |
| Server.Stats | server.js:193-215 | `used` is the sum of all record sizes, the total is 1 GB, and the breakdown is the four buckets in order with empty ones dropped |
| Server.SumOfNonEmpty | server.js:204-209 | dropping empty buckets keeps the sum of the bucket values |
| Server.TotalIsSumOverTags | server.js:197-202 | when every record has one of the five tags, the used bytes split over the five tags |
| Server.ByTypeSumsToUsed | server.js:197-209 | the breakdown values add up to the used bytes when every record has a known tag |
| Server.EmptyIndexStats | server.js:196-209 | an empty index reports zero used bytes and no breakdown |
| Server.UploadAddsSize | server.js:124-125 | an upload raises the used bytes by exactly the uploaded size |
| Server.DeleteSubtractsSize | server.js:154-155 | a delete lowers the used bytes by exactly the removed record's size |
| Server.PatchKeepsStats | server.js:177-184 | a patch leaves the statistics unchanged |
| Server.UploadKeepsBlobsMatched | server.js:111-125 | an upload keeps the blob set equal to the set of storage names of the records |
| Server.DeleteKeepsBlobsMatched | server.js:145-155 | a delete keeps blobs and records matched when no two records share a storage name |
| Server.PatchKeepsBlobsMatched | server.js:177-184 | a patch keeps blobs and records matched |
| Server.DeleteTwiceIsNotFound | server.js:140-155 | when the id named one record, deleting it again replies not-found and changes nothing |
| FileService.GetFileType | services/fileService.ts:48-55 | each of the four known categories is chosen exactly when the extension is in its list |
| FileService.ClassifiersAgree | services/fileService.ts:48-55 | the client's category value is the lower-cased server tag for every name |
| FileService.EmptyExtensionIsOther | services/fileService.ts:49-54 | an empty name or one ending in a dot is of the other category |
| FileService.NormalizeUrl | services/fileService.ts:71 | the result starts with `http`, keeps an `http` URL, prefixes the server origin otherwise, and ends with the original URL |
| FileService.NormalizeIdempotent | services/fileService.ts:71 | normalising twice equals normalising once |
| FileService.NormalizeItem | services/fileService.ts:69-72 | only the URL of a record changes, and it becomes absolute |
| FileService.GetFiles | services/fileService.ts:62-72 | the listing keeps length, order and every field except the URL, which becomes absolute |
| FileService.GetFilesIdempotent | services/fileService.ts:69-72 | normalising a normalised listing changes nothing |
| FileService.Deliver | server.js:140-143 | a server reply reaches the client unchanged on success, as status 404 for an unknown id and 400 for a missing upload |
| FileService.UploadFile | services/fileService.ts:80-100 | a failed upload is passed on; a stored record changes only in its URL, which becomes absolute |
| FileService.UpdateFileMetadata | services/fileService.ts:116-137 | the result is null exactly when the request failed; otherwise the record changes only in its URL |
| FileService.GetStorageStats | services/fileService.ts:139-153 | a failed request yields the fallback statistics, a reply is passed on |
| FileService.FallbackIsEmptyIndexStats | services/fileService.ts:147-151 | the fallback equals what the server reports for an empty index |
| App.FilteredFiles | App.tsx:142-145 | the shown records are those whose lower-cased name or some lower-cased tag contains the lower-cased query, in list order, each as often as in the list |
| App.EmptyQueryKeepsAll | App.tsx:142-145 | an empty query shows every file |
| App.UntaggedMatchesByNameOnly | App.tsx:144 | a record without tags matches exactly when its name contains the query |
| App.NameMatchIsSubstring | App.tsx:143 | the name test holds exactly when the lower-cased query occurs in the lower-cased name |
| App.AfterUpload | App.tsx:70 | the uploaded record is shown first, above the unchanged old list |
| App.SucceededPrefix | App.tsx:58-64 | the records of the replies before the first failed upload, in batch order |
| App.HandleFileUpload | App.tsx:58-72 | after a batch the list is the successfully uploaded records, normalised, newest first, above the old list |
| App.BatchOrder | App.tsx:58-72 | the last file of a batch ends up first and the first file just above the old list |
| App.AfterDelete | App.tsx:84 | every record with the id is gone and every other record is kept, in order and with all of its copies |
| App.HandleDeleteFile | App.tsx:76-90 | without confirmation or on a failed request the list is unchanged; otherwise the id is removed |
| App.AfterAnalysis | App.tsx:128 | the length is kept, records with the updated id are replaced by the update and all others are unchanged |
| App.BeginAnalysis | App.tsx:120-122 | a request for an id already in flight is refused; otherwise the id is added to the in-flight set and the list is unchanged |
| App.FinishAnalysis | App.tsx:126-138 | the id leaves the in-flight set; the list takes the patched record if one came back and is unchanged otherwise |
| App.HandleAIAnalysis | App.tsx:119-139 | a duplicate request has no effect; otherwise the analysis is applied and the id released |
| App.SecondRequestSuppressed | App.tsx:120-122 | while an analysis of an id is in flight a second one has no effect |
| App.AnalysisReleasesId | App.tsx:132-138 | a finished analysis leaves the in-flight set as it was, and a failed one also leaves the list unchanged |
| Consistency.UploadKeepsViewInSync | App.tsx:64-70 | prepending the returned record makes the page equal to a fresh listing of the server |
| Consistency.DeleteKeepsViewInSync | App.tsx:82-84 | when the id names at most one record, removing it on the page equals a fresh listing after the server's delete |
| Consistency.PatchKeepsViewInSync | App.tsx:126-128 | when the id names at most one record, replacing it on the page equals a fresh listing after the server's patch |
| Consistency.SameMillisecondUploadsDiverge | server.js:112 | two uploads with the same `Date.now()` id, then a delete: the server keeps one record while the page removes both |
| Consistency.NewestFirst | server.js:124 | uploading one file and then another lists the second first, then the first, then the old list |
| Consistency.ReportUploadIsDocument | server.js:111-125 | uploading a 3-byte `report.PDF` into an empty store lists one `DOCUMENT` of size 3 and reports 3 used bytes |
| Consistency.ReportDeleteEmpties | server.js:140-155 | deleting that upload's id empties the records, the blobs and the usage |

## Left out

- Express routing, CORS, static serving, `getLocalIPs`, `app.listen` and logging (server.js:1-43, 65-91, 221-232): transport and process set-up.
- The upload middleware's storage-name scheme (server.js:28-36): the storage name enters `Upload` as an opaque input.
- Reading and writing the metadata file and JSON (de)serialisation (server.js:46-53): a handler's result is the whole new `Index`; the 500 replies for I/O failures are not modelled.
- `fetch`, HTTP status checks and the network errors of services/fileService.ts: server replies are parameters; the `getFiles` fallback to the mock `INITIAL_FILES` with blob URLs is not modelled.
- services/geminiService.ts: a wrapper over an external AI library; its result reaches the model only as the patch body or as a failed request.
- `formatBytes` and the usage percentage (App.tsx:10-17, components/FileCard.tsx:25-32, components/StorageChart.tsx:11): floating point.
- React rendering, menus, drag-and-drop, download anchors and the upload progress list (App.tsx:54-55, 62, 69, 94-116, 147-315).
- `setStats(localServer.getStorageStats())` (App.tsx:35, 71, 86) stores the un-awaited promise; page state for statistics is not modelled.
- The analysis started right after each upload (App.tsx:67) runs concurrently with the rest of the batch; `HandleFileUpload` covers only the list updates of the loop, and `HandleAIAnalysis` covers one analysis that no other interleaves.
- App.BeginAnalysis: reads the current in-flight set, while App.tsx:120 reads the set captured when the page last rendered, so two requests issued within one render are not suppressed in the source.
- Text.ToLower: lowers ASCII letters only; JavaScript's `toLowerCase` also maps other Unicode letters (for example the Kelvin sign to `k`).
- Server.Stats: sizes and sums are unbounded integers; the source adds JavaScript numbers, which are exact only up to 2^53.
