/**
 * The Express server's metadata engine: the upper-case type classifier, and
 * the pure part of the upload, delete, patch and storage-statistics handlers
 * over a newest-first list of records plus the set of stored blob names.
 */
module Server {
  import opened Wrappers
  import opened Text
  import opened Seqs
  import opened Types

  const ImageExtensions: seq<String> := ["jpg", "jpeg", "png", "gif", "svg", "webp"]
  const VideoExtensions: seq<String> := ["mp4", "mov", "avi", "mkv"]
  const DocumentExtensions: seq<String> := ["pdf", "doc", "docx", "txt", "md"]
  const ArchiveExtensions: seq<String> := ["zip", "rar", "7z", "tar", "gz"]

  /** The five category tags the server writes into a record's `type`. */
  const Tags: seq<String> := ["IMAGE", "VIDEO", "DOCUMENT", "ARCHIVE", "OTHER"]

  /** The category tag of a file name, decided by its lower-cased extension. */
  function GetFileType(fileName: String): (tag: String)
    ensures tag in Tags
    ensures tag == "IMAGE" <==> Extension(fileName) in ImageExtensions
    ensures tag == "VIDEO" <==> Extension(fileName) in VideoExtensions
    ensures tag == "DOCUMENT" <==> Extension(fileName) in DocumentExtensions
    ensures tag == "ARCHIVE" <==> Extension(fileName) in ArchiveExtensions
  {
    var ext := Extension(fileName);
    if ext in ImageExtensions then "IMAGE"
    else if ext in VideoExtensions then "VIDEO"
    else if ext in DocumentExtensions then "DOCUMENT"
    else if ext in ArchiveExtensions then "ARCHIVE"
    else "OTHER"
  }

  /** The extension is found after the last dot, whatever the case of the name. */
  lemma ReportPdfIsDocument()
    ensures GetFileType("report.PDF") == "DOCUMENT"
  {
    ReportExtensionIsPdf();
    assert "pdf" !in ImageExtensions && "pdf" !in VideoExtensions;
    assert "pdf" == DocumentExtensions[0];
  }

  lemma ReportExtensionIsPdf()
    ensures Extension("report.PDF") == "pdf"
  {
    assert "report.PDF" == "report" + ['.'] + "PDF";
    ExtensionAfterOneDot("report", "PDF");
    assert ToLower("PDF") == "pdf";
  }

  /** A name without a dot is its own extension. */
  lemma DotlessZipIsArchive()
    ensures GetFileType("zip") == "ARCHIVE"
  {
    NoSeparatorLastPieceIsWhole("zip", '.');
    assert ToLower("zip") == "zip";
  }

  /** An empty name, or one ending in a dot, has the empty extension. */
  lemma EmptyExtensionIsOther(fileName: String)
    requires |fileName| == 0 || fileName[|fileName| - 1] == '.'
    ensures Extension(fileName) == []
    ensures GetFileType(fileName) == "OTHER"
  {
    TrailingSeparatorLastPieceIsEmpty(fileName, '.');
  }

  /** Classification does not depend on the case of the name. */
  lemma ClassificationIgnoresCase(fileName: String)
    ensures GetFileType(ToLower(fileName)) == GetFileType(fileName)
  {
    ExtensionIgnoresCase(fileName);
  }

  /** The metadata file's record list together with the names of the stored blobs. */
  datatype Index = Index(files: seq<FileItem>, blobs: set<String>)

  /** What the upload middleware hands the handler: the name, size and storage name. */
  datatype UploadedFile = UploadedFile(originalname: String, size: nat, filename: String)

  datatype ServerError = NoFileUploaded | FileNotFound

  /** A handler's effect: the index it leaves behind and the reply it sends. */
  datatype Step<T> = Step(index: Index, reply: Result<T, ServerError>)

  /** The route under which blobs are served. */
  const UploadsPath: String := "/uploads/"

  /** The record the upload handler writes for a freshly stored file. */
  predicate IsFreshRecord(item: FileItem, file: UploadedFile, id: String, now: String) {
    && item.id == id
    && item.uploadedAt == now
    && item.name == file.originalname
    && item.size == file.size
    && item.fileType == GetFileType(file.originalname)
    && item.filename == file.filename
    && item.url == UploadsPath + file.filename
    && !item.aiAnalyzed
    && item.description == Some([])
    && item.tags == Some([])
  }

  /**
   * `POST /api/upload`. `id` and `now` stand for `Date.now()` and the ISO
   * timestamp; nothing makes `id` differ from the ids already present.
   */
  function Upload(ix: Index, file: Option<UploadedFile>, id: String, now: String): (r: Step<FileItem>)
    ensures file.None? ==> r == Step(ix, Failure(NoFileUploaded))
    ensures file.Some? ==> r.reply.Success? && IsFreshRecord(r.reply.value, file.value, id, now)
    ensures file.Some? ==> r.index.files == [r.reply.value] + ix.files
    ensures file.Some? ==> r.index.blobs == ix.blobs + {file.value.filename}
  {
    match file
    case None => Step(ix, Failure(NoFileUploaded))
    case Some(f) =>
      var item := FileItem(
        id := id,
        name := f.originalname,
        size := f.size,
        fileType := GetFileType(f.originalname),
        uploadedAt := now,
        filename := f.filename,
        url := UploadsPath + f.filename,
        aiAnalyzed := false,
        description := Some([]),
        tags := Some([]));
      Step(Index([item] + ix.files, ix.blobs + {f.filename}), Success(item))
  }

  /** `files.findIndex(f => f.id === id)`. */
  function FindIndex(files: seq<FileItem>, id: String): (i: int)
    ensures -1 <= i < |files|
    ensures i == -1 <==> forall j :: 0 <= j < |files| ==> files[j].id != id
    ensures 0 <= i ==> files[i].id == id && forall j :: 0 <= j < i ==> files[j].id != id
    decreases |files|
  {
    if |files| == 0 then -1
    else if files[0].id == id then 0
    else
      var k := FindIndex(files[1..], id);
      if k == -1 then -1 else k + 1
  }

  /** `DELETE /api/files/:id`: unlink the first matching record's blob and splice the record out. */
  function Delete(ix: Index, id: String): (r: Step<()>)
    ensures r.reply.Failure? <==> forall j :: 0 <= j < |ix.files| ==> ix.files[j].id != id
    ensures r.reply.Failure? ==> r == Step(ix, Failure(FileNotFound))
    ensures r.reply.Success? ==>
      var i := FindIndex(ix.files, id);
      && r.index.files == ix.files[..i] + ix.files[i + 1..]
      && r.index.blobs == ix.blobs - {ix.files[i].filename}
  {
    var i := FindIndex(ix.files, id);
    if i == -1 then Step(ix, Failure(FileNotFound))
    else
      var file := ix.files[i];
      var blobs := if file.filename in ix.blobs then ix.blobs - {file.filename} else ix.blobs;
      Step(Index(RemoveAt(ix.files, i), blobs), Success(()))
  }

  /**
   * The merge of the patch body into a record: a missing or empty description
   * keeps the old one, missing tags keep the old ones (an empty tag list is
   * present and replaces them), and the record is marked analysed.
   */
  function Merge(f: FileItem, description: Option<String>, tags: Option<seq<String>>): (g: FileItem)
    ensures g.aiAnalyzed
    ensures g.(description := f.description, tags := f.tags, aiAnalyzed := f.aiAnalyzed) == f
    ensures (description.None? || description == Some([])) ==> g.description == f.description
    ensures (description.Some? && description != Some([])) ==> g.description == description
    ensures tags.None? ==> g.tags == f.tags
    ensures tags.Some? ==> g.tags == tags
  {
    f.(description := if description.Some? && description.value != [] then description else f.description,
       tags := if tags.Some? then tags else f.tags,
       aiAnalyzed := true)
  }

  /** `PATCH /api/files/:id`: merge the analysis result into the first matching record. */
  function Patch(ix: Index, id: String, description: Option<String>, tags: Option<seq<String>>): (r: Step<FileItem>)
    ensures r.reply.Failure? <==> forall j :: 0 <= j < |ix.files| ==> ix.files[j].id != id
    ensures r.reply.Failure? ==> r == Step(ix, Failure(FileNotFound))
    ensures r.reply.Success? ==>
      var i := FindIndex(ix.files, id);
      && r.index.blobs == ix.blobs
      && |r.index.files| == |ix.files|
      && r.index.files[i] == r.reply.value == Merge(ix.files[i], description, tags)
      && forall j :: 0 <= j < |ix.files| && j != i ==> r.index.files[j] == ix.files[j]
  {
    var i := FindIndex(ix.files, id);
    if i == -1 then Step(ix, Failure(FileNotFound))
    else
      var updated := Merge(ix.files[i], description, tags);
      Step(ix.(files := ix.files[i := updated]), Success(updated))
  }

  /** The fixed capacity reported by the statistics: 1 GB. */
  const TotalSpace: nat := 1000000000

  /** `files.reduce((acc, file) => acc + file.size, 0)`: every record's bytes are counted. */
  function TotalSize(files: seq<FileItem>): (r: nat)
    ensures forall i :: 0 <= i < |files| ==> files[i].size <= r
    decreases |files|
  {
    if |files| == 0 then 0 else files[0].size + TotalSize(files[1..])
  }

  /** The bytes recorded under one category tag (`distribution[tag] || 0`). */
  function SizeOfType(files: seq<FileItem>, tag: String): (r: nat)
    ensures r <= TotalSize(files)
    decreases |files|
  {
    if |files| == 0 then 0
    else (if files[0].fileType == tag then files[0].size else 0) + SizeOfType(files[1..], tag)
  }

  /** The bytes under one tag are the used bytes of just the records carrying that tag. */
  lemma {:induction false} SizeOfTypeIsFilteredTotal(files: seq<FileItem>, tag: String)
    ensures SizeOfType(files, tag) == TotalSize(Filter(files, (f: FileItem) => f.fileType == tag))
    decreases |files|
  {
    if |files| > 0 {
      SizeOfTypeIsFilteredTotal(files[1..], tag);
      var rest := Filter(files[1..], (f: FileItem) => f.fileType == tag);
      if files[0].fileType == tag {
        assert ([files[0]] + rest)[1..] == rest;
      }
    }
  }

  /** Records under two different tags are counted apart, so together they stay within the total. */
  lemma {:induction false} TwoTagsWithinTotal(files: seq<FileItem>, a: String, b: String)
    requires a != b
    ensures SizeOfType(files, a) + SizeOfType(files, b) <= TotalSize(files)
    decreases |files|
  {
    if |files| > 0 {
      TwoTagsWithinTotal(files[1..], a, b);
    }
  }

  /** The four chart buckets before empty ones are dropped; archives join the others. */
  function Buckets(files: seq<FileItem>): (r: seq<TypeSlice>)
    ensures |r| == 4
    ensures r[0].name == "Images" && r[1].name == "Videos" && r[2].name == "Docs" && r[3].name == "Others"
    ensures r[0].value == SizeOfType(files, "IMAGE")
    ensures r[1].value == SizeOfType(files, "VIDEO")
    ensures r[2].value == SizeOfType(files, "DOCUMENT")
    ensures r[3].value == SizeOfType(files, "ARCHIVE") + SizeOfType(files, "OTHER")
    ensures forall k :: 0 <= k < 4 ==> r[k].value <= TotalSize(files)
  {
    TwoTagsWithinTotal(files, "ARCHIVE", "OTHER");
    [ TypeSlice("Images", SizeOfType(files, "IMAGE"), "#f43f5e"),
      TypeSlice("Videos", SizeOfType(files, "VIDEO"), "#8b5cf6"),
      TypeSlice("Docs", SizeOfType(files, "DOCUMENT"), "#3b82f6"),
      TypeSlice("Others", SizeOfType(files, "ARCHIVE") + SizeOfType(files, "OTHER"), "#10b981") ]
  }

  predicate IsNonEmpty(slice: TypeSlice) {
    slice.value > 0
  }

  /** `GET /api/storage-stats`. */
  function Stats(files: seq<FileItem>): (r: StorageStats)
    ensures r.used == TotalSize(files)
    ensures r.total == TotalSpace
    ensures forall k :: 0 <= k < |r.byType| ==> r.byType[k] in Buckets(files) && r.byType[k].value > 0
    ensures forall k :: 0 <= k < 4 && Buckets(files)[k].value > 0 ==> Buckets(files)[k] in r.byType
    ensures IsSubsequence(r.byType, Buckets(files))
  {
    StorageStats(TotalSize(files), TotalSpace, Filter(Buckets(files), IsNonEmpty))
  }

  function SumValues(slices: seq<TypeSlice>): nat
    decreases |slices|
  {
    if |slices| == 0 then 0 else slices[0].value + SumValues(slices[1..])
  }

  /** Dropping empty buckets does not change the total. */
  lemma {:induction false} SumOfNonEmpty(slices: seq<TypeSlice>)
    ensures SumValues(Filter(slices, IsNonEmpty)) == SumValues(slices)
    decreases |slices|
  {
    if |slices| > 0 {
      SumOfNonEmpty(slices[1..]);
      if IsNonEmpty(slices[0]) {
        assert ([slices[0]] + Filter(slices[1..], IsNonEmpty))[1..] == Filter(slices[1..], IsNonEmpty);
      }
    }
  }

  /** When every record carries one of the five tags, the total splits over them. */
  lemma {:induction false} TotalIsSumOverTags(files: seq<FileItem>)
    requires forall k :: 0 <= k < |files| ==> files[k].fileType in Tags
    ensures TotalSize(files) == SizeOfType(files, "IMAGE") + SizeOfType(files, "VIDEO")
      + SizeOfType(files, "DOCUMENT") + SizeOfType(files, "ARCHIVE") + SizeOfType(files, "OTHER")
    decreases |files|
  {
    if |files| > 0 {
      TotalIsSumOverTags(files[1..]);
      assert files[0].fileType in Tags;
    }
  }

  /** The breakdown accounts for every used byte when all records carry a known tag. */
  lemma ByTypeSumsToUsed(files: seq<FileItem>)
    requires forall k :: 0 <= k < |files| ==> files[k].fileType in Tags
    ensures SumValues(Stats(files).byType) == Stats(files).used
  {
    TotalIsSumOverTags(files);
    var b := Buckets(files);
    SumOfNonEmpty(b);
    SumOfFour(b);
  }

  lemma SumOfFour(b: seq<TypeSlice>)
    requires |b| == 4
    ensures SumValues(b) == b[0].value + b[1].value + b[2].value + b[3].value
  {
    var b3 := b[3..];
    assert SumValues(b3) == b[3].value + SumValues(b3[1..]) && b3[1..] == [];
    assert b[2..][1..] == b3;
    assert SumValues(b[2..]) == b[2].value + SumValues(b3);
    assert b[1..][1..] == b[2..];
    assert SumValues(b[1..]) == b[1].value + SumValues(b[2..]);
  }

  /** An empty index has no usage and no breakdown entries. */
  lemma EmptyIndexStats()
    ensures Stats([]) == StorageStats(0, TotalSpace, [])
  {
    assert Filter(Buckets([]), IsNonEmpty) == [];
  }

  /** An upload adds exactly the uploaded size to the usage. */
  lemma UploadAddsSize(ix: Index, file: UploadedFile, id: String, now: String)
    ensures Stats(Upload(ix, Some(file), id, now).index.files).used == Stats(ix.files).used + file.size
  {
    var files' := Upload(ix, Some(file), id, now).index.files;
    assert files'[1..] == ix.files;
  }

  lemma {:induction false} TotalSizeRemoveAt(files: seq<FileItem>, i: nat)
    requires i < |files|
    ensures TotalSize(RemoveAt(files, i)) + files[i].size == TotalSize(files)
    decreases i
  {
    if i == 0 {
      assert RemoveAt(files, 0) == files[1..];
    } else {
      TotalSizeRemoveAt(files[1..], i - 1);
      assert RemoveAt(files, i)[1..] == RemoveAt(files[1..], i - 1);
    }
  }

  /** A successful delete subtracts exactly the deleted record's size from the usage. */
  lemma DeleteSubtractsSize(ix: Index, id: String)
    requires Delete(ix, id).reply.Success?
    ensures var i := FindIndex(ix.files, id);
      Stats(Delete(ix, id).index.files).used + ix.files[i].size == Stats(ix.files).used
  {
    TotalSizeRemoveAt(ix.files, FindIndex(ix.files, id));
  }

  /** A patch leaves the usage and the breakdown as they were. */
  lemma {:induction false} PatchKeepsStats(ix: Index, id: String, description: Option<String>, tags: Option<seq<String>>)
    ensures Stats(Patch(ix, id, description, tags).index.files) == Stats(ix.files)
  {
    var r := Patch(ix, id, description, tags);
    if r.reply.Success? {
      SameSizesAndTypes(ix.files, r.index.files);
      SameStats(ix.files, r.index.files);
    }
  }

  /** Lists with the same used bytes and the same bytes per tag report the same statistics. */
  lemma SameStats(a: seq<FileItem>, b: seq<FileItem>)
    requires TotalSize(a) == TotalSize(b)
    requires forall tag :: SizeOfType(a, tag) == SizeOfType(b, tag)
    ensures Stats(a) == Stats(b)
  {
    SameBuckets(a, b);
  }

  lemma SameBuckets(a: seq<FileItem>, b: seq<FileItem>)
    requires forall tag :: SizeOfType(a, tag) == SizeOfType(b, tag)
    ensures Buckets(a) == Buckets(b)
  {
    assert SizeOfType(a, "IMAGE") == SizeOfType(b, "IMAGE");
    assert SizeOfType(a, "VIDEO") == SizeOfType(b, "VIDEO");
    assert SizeOfType(a, "DOCUMENT") == SizeOfType(b, "DOCUMENT");
    assert SizeOfType(a, "ARCHIVE") == SizeOfType(b, "ARCHIVE");
    assert SizeOfType(a, "OTHER") == SizeOfType(b, "OTHER");
  }

  lemma {:induction false} SameSizesAndTypes(a: seq<FileItem>, b: seq<FileItem>)
    requires |a| == |b|
    requires forall k :: 0 <= k < |a| ==> a[k].size == b[k].size && a[k].fileType == b[k].fileType
    ensures TotalSize(a) == TotalSize(b)
    ensures forall tag :: SizeOfType(a, tag) == SizeOfType(b, tag)
    decreases |a|
  {
    if |a| > 0 {
      SameSizesAndTypes(a[1..], b[1..]);
    }
  }

  /** Every blob belongs to exactly the records that name it, and vice versa. */
  predicate BlobsMatchRecords(ix: Index) {
    ix.blobs == set k | 0 <= k < |ix.files| :: ix.files[k].filename
  }

  /** No two records share a storage name. */
  predicate DistinctFilenames(files: seq<FileItem>) {
    forall i, j :: 0 <= i < j < |files| ==> files[i].filename != files[j].filename
  }

  /** An upload stores one blob and one record naming it. */
  lemma UploadKeepsBlobsMatched(ix: Index, file: Option<UploadedFile>, id: String, now: String)
    requires BlobsMatchRecords(ix)
    ensures BlobsMatchRecords(Upload(ix, file, id, now).index)
  {
    if file.Some? {
      var files' := Upload(ix, file, id, now).index.files;
      assert forall k :: 0 <= k < |ix.files| ==> files'[k + 1] == ix.files[k];
      assert files'[0].filename == file.value.filename;
      var names := set k | 0 <= k < |files'| :: files'[k].filename;
      assert forall n :: n in names ==> n in ix.blobs + {file.value.filename};
    }
  }

  /** A delete removes the record and its blob together, provided no other record shares the blob. */
  lemma DeleteKeepsBlobsMatched(ix: Index, id: String)
    requires BlobsMatchRecords(ix)
    requires DistinctFilenames(ix.files)
    ensures BlobsMatchRecords(Delete(ix, id).index)
  {
    var r := Delete(ix, id);
    if r.reply.Success? {
      var i := FindIndex(ix.files, id);
      var files' := r.index.files;
      assert forall k :: 0 <= k < i ==> files'[k] == ix.files[k];
      assert forall k :: i <= k < |files'| ==> files'[k] == ix.files[k + 1];
      var names := set k | 0 <= k < |files'| :: files'[k].filename;
      forall n | n in r.index.blobs ensures n in names {
        var k :| 0 <= k < |ix.files| && ix.files[k].filename == n;
        if k < i {
          assert files'[k].filename == n;
        } else {
          assert files'[k - 1].filename == n;
        }
      }
    }
  }

  /** A patch touches neither blobs nor storage names. */
  lemma PatchKeepsBlobsMatched(ix: Index, id: String, description: Option<String>, tags: Option<seq<String>>)
    requires BlobsMatchRecords(ix)
    ensures BlobsMatchRecords(Patch(ix, id, description, tags).index)
  {
    var r := Patch(ix, id, description, tags);
    if r.reply.Success? {
      assert forall k :: 0 <= k < |ix.files| ==> r.index.files[k].filename == ix.files[k].filename;
    }
  }

  /** At most one record carries `id`. */
  predicate AtMostOnce(files: seq<FileItem>, id: String) {
    forall i, j :: 0 <= i < j < |files| && files[i].id == id ==> files[j].id != id
  }

  /** With a single record per id, a second delete of the same id reports not-found and changes nothing. */
  lemma DeleteTwiceIsNotFound(ix: Index, id: String)
    requires AtMostOnce(ix.files, id)
    requires Delete(ix, id).reply.Success?
    ensures var ix' := Delete(ix, id).index;
      Delete(ix', id) == Step(ix', Failure(FileNotFound))
  {
    var i := FindIndex(ix.files, id);
    var files' := Delete(ix, id).index.files;
    forall j | 0 <= j < |files'| ensures files'[j].id != id {
      if j < i {
        assert files'[j] == ix.files[j];
      } else {
        assert files'[j] == ix.files[j + 1];
      }
    }
  }
}
