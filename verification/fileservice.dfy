/**
 * The client's network service: its own copy of the type classifier (returning
 * the lower-case `FileType`), the rewriting of relative blob URLs into absolute
 * ones, and the fallback statistics. Replies from the server are parameters.
 */
module FileService {
  import opened Wrappers
  import opened Text
  import opened Seqs
  import opened Types
  import Server

  const ImageExtensions: seq<String> := ["jpg", "jpeg", "png", "gif", "svg", "webp"]
  const VideoExtensions: seq<String> := ["mp4", "mov", "avi", "mkv"]
  const DocumentExtensions: seq<String> := ["pdf", "doc", "docx", "txt", "md"]
  const ArchiveExtensions: seq<String> := ["zip", "rar", "7z", "tar", "gz"]

  /** The category of a file name, decided by its lower-cased extension. */
  function GetFileType(fileName: String): (t: FileType)
    ensures t == Image <==> Extension(fileName) in ImageExtensions
    ensures t == Video <==> Extension(fileName) in VideoExtensions
    ensures t == Document <==> Extension(fileName) in DocumentExtensions
    ensures t == Archive <==> Extension(fileName) in ArchiveExtensions
  {
    var ext := Extension(fileName);
    if ext in ImageExtensions then Image
    else if ext in VideoExtensions then Video
    else if ext in DocumentExtensions then Document
    else if ext in ArchiveExtensions then Archive
    else Other
  }

  /** The client and the server classify every name alike, up to the case of the tag. */
  lemma ClassifiersAgree(fileName: String)
    ensures FileTypeValue(GetFileType(fileName)) == ToLower(Server.GetFileType(fileName))
  {
    assert ImageExtensions == Server.ImageExtensions;
    assert VideoExtensions == Server.VideoExtensions;
    assert DocumentExtensions == Server.DocumentExtensions;
    assert ArchiveExtensions == Server.ArchiveExtensions;
    assert ToLower("IMAGE") == "image";
    assert ToLower("VIDEO") == "video";
    assert ToLower("DOCUMENT") == "document";
    assert ToLower("ARCHIVE") == "archive";
    assert ToLower("OTHER") == "other";
  }

  /** An empty name, or one ending in a dot, is of the other category. */
  lemma EmptyExtensionIsOther(fileName: String)
    requires |fileName| == 0 || fileName[|fileName| - 1] == '.'
    ensures GetFileType(fileName) == Other
  {
    TrailingSeparatorLastPieceIsEmpty(fileName, '.');
  }

  /** Where the server is reached from the client. */
  const ServerOrigin: String := "http://localhost:3001"

  /** A URL not starting with `http` is taken as a path on the server. */
  function NormalizeUrl(url: String): (r: String)
    ensures StartsWith(r, "http")
    ensures StartsWith(url, "http") ==> r == url
    ensures !StartsWith(url, "http") ==> r == ServerOrigin + url
    ensures |url| <= |r| && r[|r| - |url|..] == url
  {
    if StartsWith(url, "http") then url else ServerOrigin + url
  }

  /** Normalising a normalised URL changes nothing. */
  lemma NormalizeIdempotent(url: String)
    ensures NormalizeUrl(NormalizeUrl(url)) == NormalizeUrl(url)
  {
  }

  /** A record with its URL made absolute; no other field changes. */
  function NormalizeItem(f: FileItem): (g: FileItem)
    ensures g.(url := f.url) == f
    ensures StartsWith(g.url, "http")
  {
    f.(url := NormalizeUrl(f.url))
  }

  /** `getFiles` on a successful reply: every record with an absolute URL, in the same order. */
  function GetFiles(files: seq<FileItem>): (r: seq<FileItem>)
    ensures |r| == |files|
    ensures forall i :: 0 <= i < |files| ==> r[i].(url := files[i].url) == files[i]
    ensures forall i :: 0 <= i < |files| ==> StartsWith(r[i].url, "http")
  {
    Map(files, NormalizeItem)
  }

  /** Fetching an already normalised list again gives the same list. */
  lemma GetFilesIdempotent(files: seq<FileItem>)
    ensures GetFiles(GetFiles(files)) == GetFiles(files)
  {
    var once := GetFiles(files);
    forall i | 0 <= i < |files| ensures GetFiles(once)[i] == once[i] {
      NormalizeIdempotent(files[i].url);
    }
  }

  /** Why a request failed: the server's error status, or no reply at all. */
  datatype RequestError = HttpStatus(code: int) | NetworkFailure

  /** A server reply as the client receives it: 400 for a missing upload, 404 for an unknown id. */
  function Deliver<T>(reply: Result<T, Server.ServerError>): (r: Result<T, RequestError>)
    ensures reply.Success? <==> r.Success?
    ensures reply.Success? ==> r.value == reply.value
    ensures reply == Failure(Server.NoFileUploaded) ==> r == Failure(HttpStatus(400))
    ensures reply == Failure(Server.FileNotFound) ==> r == Failure(HttpStatus(404))
  {
    match reply
    case Success(v) => Success(v)
    case Failure(e) => Failure(HttpStatus(if e.NoFileUploaded? then 400 else 404))
  }

  /** `uploadFile`: a failed request is rethrown; a stored record comes back with an absolute URL. */
  function UploadFile(response: Result<FileItem, RequestError>): (r: Result<FileItem, RequestError>)
    ensures response.Failure? ==> r == response
    ensures response.Success? ==> r.Success? && r.value.(url := response.value.url) == response.value
    ensures response.Success? ==> StartsWith(r.value.url, "http")
  {
    match response
    case Success(f) => Success(NormalizeItem(f))
    case Failure(e) => Failure(e)
  }

  /** `updateFileMetadata`: any failure yields `null`; a patched record comes back with an absolute URL. */
  function UpdateFileMetadata(response: Result<FileItem, RequestError>): (r: Option<FileItem>)
    ensures response.Failure? <==> r.None?
    ensures response.Success? ==> r.value.(url := response.value.url) == response.value
    ensures response.Success? ==> StartsWith(r.value.url, "http")
  {
    match response
    case Success(f) => Some(NormalizeItem(f))
    case Failure(_) => None
  }

  /** The statistics shown when the server cannot be reached. */
  const FallbackStats: StorageStats := StorageStats(0, 1000000000, [])

  /** `getStorageStats`: the server's reply, or the fallback when the request fails. */
  function GetStorageStats(response: Option<StorageStats>): (r: StorageStats)
    ensures response.None? ==> r == FallbackStats
    ensures response.Some? ==> r == response.value
  {
    match response
    case Some(stats) => stats
    case None => FallbackStats
  }

  /** The fallback is what the server itself reports for an empty index. */
  lemma FallbackIsEmptyIndexStats()
    ensures FallbackStats == Server.Stats([])
  {
    Server.EmptyIndexStats();
  }
}
