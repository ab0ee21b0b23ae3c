/** The record and statistics shapes shared by the server and the client. */
module Types {
  import opened Wrappers
  import opened Text

  /** The client's file categories. */
  datatype FileType = Image | Video | Document | Archive | Other

  /** The string value each `FileType` member stands for. */
  function FileTypeValue(t: FileType): String {
    match t
    case Image => "image"
    case Video => "video"
    case Document => "document"
    case Archive => "archive"
    case Other => "other"
  }

  /**
   * One file record. `fileType` (the source's `type`) holds whatever category tag the record was written
   * with (the server writes upper-case tags); `filename` is the blob's storage
   * name; `description` and `tags` are optional; an absent `aiAnalyzed` reads
   * as false.
   */
  datatype FileItem = FileItem(
    id: String,
    name: String,
    size: nat,
    fileType: String,
    uploadedAt: String,
    filename: String,
    url: String,
    description: Option<String>,
    tags: Option<seq<String>>,
    aiAnalyzed: bool)

  /** One entry of the per-category breakdown. */
  datatype TypeSlice = TypeSlice(name: String, value: nat, color: String)

  datatype StorageStats = StorageStats(used: nat, total: nat, byType: seq<TypeSlice>)
}
