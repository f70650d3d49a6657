/** The remote document and file store the facade talks to, reduced to what
    the post/media lifecycle touches: the set of live file ids and the post
    and user collections. Every SDK call's outcome is an explicit input. */
module Store {
  import opened JsValues

  type FileId = string
  type DocId = string

  /** A post document. `creator` and `likes` are set elsewhere and are never
      written by an edit. */
  datatype Post = Post(
    creator: DocId,
    caption: string,
    mediaUrl: string,
    mediaId: FileId,
    location: string,
    tags: seq<string>,
    mediaType: string,
    thumbnailUrl: Option<string>,
    likes: seq<DocId>)

  /** A user document. `imageId` is absent until a profile picture is uploaded. */
  datatype User = User(
    accountId: string,
    name: string,
    email: string,
    username: string,
    bio: string,
    imageUrl: string,
    imageId: Option<FileId>,
    royal: bool)

  datatype Store = Store(files: set<FileId>, posts: map<DocId, Post>, users: map<DocId, User>)

  /** One call into the SDK, recorded in the order it is made. */
  datatype Call =
    | CreateFile
    | GetFileView(file: FileId)
    | DeleteFile(file: FileId)
    | CreateDocument(doc: DocId)
    | UpdateDocument(doc: DocId)
    | DeleteDocument(doc: DocId)

  /** What `uploadFile` gives back: a file object (with its server-chosen
      id), or `undefined` after a falsy result or a caught exception. */
  datatype Upload = UploadFailed | Uploaded(id: FileId)

  /** How a document write (create, update or delete) comes back. A falsy
      result is taken to mean that nothing was written. */
  datatype Write = WriteOk | WriteFalsy | WriteThrew

  /** The outcomes of the SDK calls one facade operation makes: the upload,
      the preview URL (`getFilePreview`, which turns exceptions into
      `undefined`), the document write, and whether `storage.deleteFile`
      succeeds when it is called. */
  datatype Outcomes = Outcomes(upload: Upload, preview: Option<string>, write: Write, deleteSucceeds: bool)

  /** The server hands out file ids that are not in use. */
  predicate FreshUpload(s: Store, sdk: Outcomes)
  {
    sdk.upload.Uploaded? ==> sdk.upload.id !in s.files
  }

  /** The store after `deleteFile(id)`, which logs and swallows errors: the
      file is gone if the SDK call succeeded, otherwise nothing changed. */
  function DeleteFileQuietly(s: Store, id: FileId, succeeds: bool): (s': Store)
    ensures s'.posts == s.posts && s'.users == s.users
    ensures id !in s'.files || !succeeds
    ensures s'.files <= s.files && s.files - {id} <= s'.files
  {
    if succeeds then s.(files := s.files - {id}) else s
  }

  /** The result of one facade operation: the store afterwards, the SDK
      calls made, and the value returned (`None` for `undefined`). */
  datatype Run<T> = Run(store: Store, calls: seq<Call>, result: Option<T>)

  /** `a` is made at some point before `b`. */
  predicate Before(calls: seq<Call>, a: Call, b: Call)
  {
    exists i, j :: 0 <= i < j < |calls| && calls[i] == a && calls[j] == b
  }

  /** How often `c` is made. */
  function Times(calls: seq<Call>, c: Call): nat
  {
    multiset(calls)[c]
  }
}
