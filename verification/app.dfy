/**
 * The client's local view: the search filter over the file list, and the
 * updates the page applies to its list after uploads, deletes and analyses,
 * including the guard that suppresses a second analysis of the same file.
 */
module App {
  import opened Wrappers
  import opened Text
  import opened Seqs
  import opened Types
  import FileService

  /** Some tag of the record contains the query, ignoring case. */
  predicate SomeTagMatches(f: FileItem, query: String) {
    f.tags.Some? && exists k :: 0 <= k < |f.tags.value| && Includes(ToLower(f.tags.value[k]), ToLower(query))
  }

  /** The search predicate: the name or some tag contains the query, ignoring case. */
  predicate Matches(f: FileItem, query: String) {
    Includes(ToLower(f.name), ToLower(query)) || SomeTagMatches(f, query)
  }

  /** `filteredFiles`: the records matching the search box, in list order. */
  function FilteredFiles(files: seq<FileItem>, query: String): (r: seq<FileItem>)
    ensures forall i :: 0 <= i < |r| ==> r[i] in files && Matches(r[i], query)
    ensures forall i :: 0 <= i < |files| && Matches(files[i], query) ==> files[i] in r
    ensures forall f :: multiset(r)[f] == if Matches(f, query) then multiset(files)[f] else 0
    ensures IsSubsequence(r, files)
  {
    FilterCounts(files, f => Matches(f, query));
    Filter(files, f => Matches(f, query))
  }

  /** An empty search box shows every file. */
  lemma EmptyQueryKeepsAll(files: seq<FileItem>)
    ensures FilteredFiles(files, []) == files
  {
    forall i | 0 <= i < |files| ensures Matches(files[i], []) {
      assert |ToLower([])| == 0;
    }
    FilterKeepsAll(files, f => Matches(f, []));
  }

  /** A record without tags, or with an empty tag list, is found by its name only. */
  lemma UntaggedMatchesByNameOnly(f: FileItem, query: String)
    requires f.tags.None? || f.tags == Some([])
    ensures Matches(f, query) <==> Includes(ToLower(f.name), ToLower(query))
  {
  }

  /** The search is a case-insensitive substring test on the name. */
  lemma NameMatchIsSubstring(f: FileItem, query: String)
    ensures Includes(ToLower(f.name), ToLower(query)) <==> exists i :: OccursAt(ToLower(f.name), ToLower(query), i)
  {
    IncludesIffOccurs(ToLower(f.name), ToLower(query));
  }

  /** After one upload the new record is shown first. */
  function AfterUpload(files: seq<FileItem>, uploaded: FileItem): (r: seq<FileItem>)
    ensures |r| == |files| + 1 && r[0] == uploaded && r[1..] == files
  {
    [uploaded] + files
  }

  /** What the client learns from one upload request. */
  type UploadResponse = Result<FileItem, FileService.RequestError>

  /** The records of the replies that came back before the first failed upload. */
  function SucceededPrefix(responses: seq<UploadResponse>): (r: seq<FileItem>)
    ensures |r| <= |responses|
    ensures forall k :: 0 <= k < |r| ==> responses[k] == Success(r[k])
    ensures |r| < |responses| ==> responses[|r|].Failure?
    decreases |responses|
  {
    if |responses| == 0 || responses[0].Failure? then []
    else [responses[0].value] + SucceededPrefix(responses[1..])
  }

  /**
   * `handleFileUpload`: the files of a batch are uploaded one after another
   * and each returned record is prepended; the first failed upload ends the
   * batch. `responses` are the server's replies, in batch order.
   */
  method HandleFileUpload(files: seq<FileItem>, responses: seq<UploadResponse>) returns (r: seq<FileItem>)
    ensures |r| == |files| + |SucceededPrefix(responses)|
    ensures r[|r| - |files|..] == files
    ensures r == Reversed(Map(SucceededPrefix(responses), FileService.NormalizeItem)) + files
  {
    var shown := Map(SucceededPrefix(responses), FileService.NormalizeItem);
    r := files;
    var i := 0;
    while i < |responses| && responses[i].Success?
      invariant 0 <= i <= |shown|
      invariant r == Reversed(shown[..i]) + files
      decreases |responses| - i
    {
      var newFile := FileService.UploadFile(responses[i]);
      UploadedRecordIsShown(responses, i);
      PrependStep(shown, i, r, files);
      r := AfterUpload(r, newFile.value);
      i := i + 1;
    }
    PrefixEndsAtFailure(responses, i);
    assert shown[..i] == shown;
  }

  /** The record a successful reply yields is the next one of the batch's shown records. */
  lemma UploadedRecordIsShown(responses: seq<UploadResponse>, i: nat)
    requires i < |responses| && responses[i].Success?
    requires i <= |SucceededPrefix(responses)|
    ensures i < |SucceededPrefix(responses)|
    ensures FileService.UploadFile(responses[i]).value == Map(SucceededPrefix(responses), FileService.NormalizeItem)[i]
  {
  }

  /** Prepending the next shown record extends the reversed prefix by one. */
  lemma PrependStep(shown: seq<FileItem>, i: nat, r: seq<FileItem>, files: seq<FileItem>)
    requires i < |shown|
    requires r == Reversed(shown[..i]) + files
    ensures AfterUpload(r, shown[i]) == Reversed(shown[..i + 1]) + files
  {
    ReversedStep(shown, i);
  }

  lemma PrefixEndsAtFailure(responses: seq<UploadResponse>, i: nat)
    requires i <= |SucceededPrefix(responses)|
    requires i == |responses| || responses[i].Failure?
    ensures i == |SucceededPrefix(responses)|
  {
  }

  /** The last file of a successful batch ends up first, the first one just above the old list. */
  lemma BatchOrder(files: seq<FileItem>, uploaded: seq<FileItem>)
    requires |uploaded| > 0
    ensures var r := Reversed(uploaded) + files;
      r[0] == uploaded[|uploaded| - 1] && r[|uploaded| - 1] == uploaded[0] && r[|uploaded|..] == files
  {
  }

  /** After a delete every record with that id disappears; the others keep their order. */
  function AfterDelete(files: seq<FileItem>, id: String): (r: seq<FileItem>)
    ensures forall i :: 0 <= i < |r| ==> r[i] in files && r[i].id != id
    ensures forall i :: 0 <= i < |files| && files[i].id != id ==> files[i] in r
    ensures forall f :: multiset(r)[f] == if f.id != id then multiset(files)[f] else 0
    ensures IsSubsequence(r, files)
  {
    FilterCounts(files, (f: FileItem) => f.id != id);
    Filter(files, (f: FileItem) => f.id != id)
  }

  /**
   * `handleDeleteFile`: nothing happens unless the user confirms and the
   * server accepts the delete.
   */
  function HandleDeleteFile(files: seq<FileItem>, id: String, confirmed: bool, response: Result<(), FileService.RequestError>): (r: seq<FileItem>)
    ensures !confirmed || response.Failure? ==> r == files
    ensures confirmed && response.Success? ==> r == AfterDelete(files, id)
  {
    if !confirmed then files
    else match response
      case Failure(_) => files
      case Success(_) => AfterDelete(files, id)
  }

  /** After an analysis every record with the updated record's id is replaced by it. */
  function AfterAnalysis(files: seq<FileItem>, updated: FileItem): (r: seq<FileItem>)
    ensures |r| == |files|
    ensures forall i :: 0 <= i < |files| && files[i].id != updated.id ==> r[i] == files[i]
    ensures forall i :: 0 <= i < |files| && files[i].id == updated.id ==> r[i] == updated
  {
    Map(files, (f: FileItem) => if f.id == updated.id then updated else f)
  }

  /** The page's list together with the ids whose analysis is in flight. */
  datatype View = View(files: seq<FileItem>, analyzingIds: set<String>)

  /** The start of `handleAIAnalysis`: `None` when an analysis of `id` is already in flight. */
  function BeginAnalysis(v: View, id: String): (r: Option<View>)
    ensures id in v.analyzingIds <==> r.None?
    ensures r.Some? ==> r.value.files == v.files && r.value.analyzingIds == v.analyzingIds + {id}
  {
    if id in v.analyzingIds then None else Some(v.(analyzingIds := v.analyzingIds + {id}))
  }

  /** The end of `handleAIAnalysis`: apply the patched record if one came back, then release `id`. */
  function FinishAnalysis(v: View, id: String, updated: Option<FileItem>): (r: View)
    ensures r.analyzingIds == v.analyzingIds - {id}
    ensures updated.None? ==> r.files == v.files
    ensures updated.Some? ==> r.files == AfterAnalysis(v.files, updated.value)
  {
    var files := match updated
      case Some(f) => AfterAnalysis(v.files, f)
      case None => v.files;
    View(files, v.analyzingIds - {id})
  }

  /** A whole analysis that runs without another one interleaving. */
  function HandleAIAnalysis(v: View, id: String, updated: Option<FileItem>): (r: View)
    ensures id in v.analyzingIds ==> r == v
    ensures id !in v.analyzingIds ==> r == FinishAnalysis(v, id, updated)
  {
    match BeginAnalysis(v, id)
    case None => v
    case Some(started) => FinishAnalysis(started, id, updated)
  }

  /** While an analysis of `id` is in flight a second request for it has no effect. */
  lemma SecondRequestSuppressed(v: View, id: String, updated: Option<FileItem>)
    requires BeginAnalysis(v, id).Some?
    ensures var started := BeginAnalysis(v, id).value;
      BeginAnalysis(started, id).None? && HandleAIAnalysis(started, id, updated) == started
  {
  }

  /** A completed analysis leaves the in-flight set as it found it, and a failed one leaves the list alone. */
  lemma AnalysisReleasesId(v: View, id: String, updated: Option<FileItem>)
    requires id !in v.analyzingIds
    ensures HandleAIAnalysis(v, id, updated).analyzingIds == v.analyzingIds
    ensures updated.None? ==> HandleAIAnalysis(v, id, updated) == v
  {
  }
}
