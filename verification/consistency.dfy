/**
 * How the client's list follows the server's index: after each successful
 * request the list the page keeps equals a fresh `getFiles` of the server's
 * new index, provided the affected id names at most one record.
 */
module Consistency {
  import opened Wrappers
  import opened Text
  import opened Seqs
  import opened Types
  import Server
  import FileService
  import App

  /** What a fresh `getFiles` shows of the server's index. */
  function ClientView(ix: Server.Index): seq<FileItem> {
    FileService.GetFiles(ix.files)
  }

  /** Prepending the returned record keeps the page in step with the server. */
  lemma UploadKeepsViewInSync(ix: Server.Index, file: Server.UploadedFile, id: String, now: String)
    ensures var r := Server.Upload(ix, Some(file), id, now);
      ClientView(r.index) == App.AfterUpload(ClientView(ix), FileService.UploadFile(FileService.Deliver(r.reply)).value)
  {
    var r := Server.Upload(ix, Some(file), id, now);
    MapConcat([r.reply.value], ix.files, FileService.NormalizeItem);
  }

  /** The listing keeps every record's id. */
  lemma ViewKeepsIds(files: seq<FileItem>)
    ensures forall j :: 0 <= j < |files| ==> FileService.GetFiles(files)[j].id == files[j].id
  {
    forall j | 0 <= j < |files| ensures FileService.GetFiles(files)[j].id == files[j].id {
      assert FileService.GetFiles(files)[j] == FileService.NormalizeItem(files[j]);
    }
  }

  /** Listing after a splice is splicing the listing. */
  lemma ViewOfRemoveAt(files: seq<FileItem>, i: nat)
    requires i < |files|
    ensures FileService.GetFiles(RemoveAt(files, i)) == RemoveAt(FileService.GetFiles(files), i)
  {
  }

  /** When the id names at most one record, no record other than the first match has it. */
  lemma OnlyFirstMatchHasId(files: seq<FileItem>, id: String, i: nat)
    requires Server.AtMostOnce(files, id)
    requires i < |files| && files[i].id == id
    ensures forall j :: 0 <= j < |files| && j != i ==> files[j].id != id
  {
  }

  /** Removing by id on the page matches the server's splice when the id names one record. */
  lemma DeleteKeepsViewInSync(ix: Server.Index, id: String)
    requires Server.AtMostOnce(ix.files, id)
    requires Server.Delete(ix, id).reply.Success?
    ensures var r := Server.Delete(ix, id);
      ClientView(r.index) == App.HandleDeleteFile(ClientView(ix), id, true, FileService.Deliver(r.reply))
  {
    var r := Server.Delete(ix, id);
    var i := Server.FindIndex(ix.files, id);
    var shown := ClientView(ix);
    OnlyFirstMatchHasId(ix.files, id, i);
    ViewKeepsIds(ix.files);
    FilterDropsOne(shown, (f: FileItem) => f.id != id, i);
    ViewOfRemoveAt(ix.files, i);
    assert r.index.files == RemoveAt(ix.files, i);
  }

  /** Replacing by id on the page matches the server's patch when the id names one record. */
  lemma PatchKeepsViewInSync(ix: Server.Index, id: String, description: Option<String>, tags: Option<seq<String>>)
    requires Server.AtMostOnce(ix.files, id)
    requires Server.Patch(ix, id, description, tags).reply.Success?
    ensures var r := Server.Patch(ix, id, description, tags);
      ClientView(r.index) == App.AfterAnalysis(ClientView(ix), FileService.UpdateFileMetadata(FileService.Deliver(r.reply)).value)
  {
    var r := Server.Patch(ix, id, description, tags);
    var i := Server.FindIndex(ix.files, id);
    var shown := ClientView(ix);
    var updated := FileService.UpdateFileMetadata(FileService.Deliver(r.reply)).value;
    OnlyFirstMatchHasId(ix.files, id, i);
    ViewKeepsIds(ix.files);
    assert updated.id == id;
    forall j | 0 <= j < |shown| ensures ClientView(r.index)[j] == App.AfterAnalysis(shown, updated)[j] {
      if j != i {
        assert shown[j].id != id;
      }
    }
  }

  /**
   * Two uploads in the same millisecond get the same id; a delete of that id
   * then removes one record on the server but both from the page.
   */
  lemma SameMillisecondUploadsDiverge()
    ensures var ix0 := Server.Index([], {});
      var ix1 := Server.Upload(ix0, Some(Server.UploadedFile("a.txt", 1, "1-1-a.txt")), "1700000000000", "t").index;
      var ix2 := Server.Upload(ix1, Some(Server.UploadedFile("b.zip", 2, "1-2-b.zip")), "1700000000000", "t").index;
      var r := Server.Delete(ix2, "1700000000000");
      && r.reply.Success?
      && |ClientView(r.index)| == 1
      && App.HandleDeleteFile(ClientView(ix2), "1700000000000", true, FileService.Deliver(r.reply)) == []
  {
    var ix0 := Server.Index([], {});
    var ix1 := Server.Upload(ix0, Some(Server.UploadedFile("a.txt", 1, "1-1-a.txt")), "1700000000000", "t").index;
    var ix2 := Server.Upload(ix1, Some(Server.UploadedFile("b.zip", 2, "1-2-b.zip")), "1700000000000", "t").index;
    var shown := ClientView(ix2);
    assert |shown| == 2 && shown[0].id == shown[1].id == "1700000000000";
  }

  /** Uploading `a.txt` then `b.zip` lists `b.zip` first. */
  lemma NewestFirst(ix: Server.Index, a: Server.UploadedFile, b: Server.UploadedFile, idA: String, idB: String, now: String)
    ensures var ix1 := Server.Upload(ix, Some(a), idA, now).index;
      var ix2 := Server.Upload(ix1, Some(b), idB, now).index;
      ix2.files[0].name == b.originalname && ix2.files[1].name == a.originalname && ix2.files[2..] == ix.files
  {
    var ix1 := Server.Upload(ix, Some(a), idA, now).index;
    var ix2 := Server.Upload(ix1, Some(b), idB, now).index;
    assert ix2.files[2..] == ix1.files[1..];
  }

  /** The index after uploading a 3-byte `report.PDF` into an empty store. */
  function ReportIndex(filename: String, id: String, now: String): Server.Index {
    Server.Upload(Server.Index([], {}), Some(Server.UploadedFile("report.PDF", 3, filename)), id, now).index
  }

  /** Uploading a 3-byte `report.PDF` into an empty store lists a 3-byte `DOCUMENT`. */
  lemma ReportUploadIsDocument(filename: String, id: String, now: String)
    ensures var ix := ReportIndex(filename, id, now);
      && |ix.files| == 1
      && ix.files[0].fileType == "DOCUMENT"
      && ix.files[0].size == 3
      && Server.Stats(ix.files).used == 3
  {
    Server.ReportPdfIsDocument();
    var ix := ReportIndex(filename, id, now);
    assert Server.TotalSize(ix.files[1..]) == 0;
  }

  /** Deleting that upload's id empties the store and its usage. */
  lemma ReportDeleteEmpties(filename: String, id: String, now: String)
    ensures var ix := Server.Delete(ReportIndex(filename, id, now), id).index;
      ix == Server.Index([], {}) && Server.Stats(ix.files).used == 0
  {
    var ix := ReportIndex(filename, id, now);
    assert Server.FindIndex(ix.files, id) == 0;
  }
}
