/** The post/media facade over the backend SDK: tag parsing, the feed's
    query list, and the upload / preview / write / cleanup sequences of
    creating, editing and deleting posts and editing a user profile. Each
    operation is one atomic step from a store to a `Run`. */
module Api {
  import opened JsValues
  import opened JsString
  import opened Store
  import opened Utils

  // ------------------------------------------------------------- tags

  /** `post.tags?.replace(/ /g, "").split(",") || []`: no tags gives the
      empty list; otherwise every space is dropped and the rest is split at
      commas, so the empty string gives one empty tag. */
  function ParseTags(tags: Option<string>): (pieces: seq<string>)
    ensures tags.None? ==> pieces == []
    ensures tags.Some? ==>
              && |pieces| == Count(RemoveAll(tags.value, ' '), ',') + 1
              && (forall i :: 0 <= i < |pieces| ==> ' ' !in pieces[i] && ',' !in pieces[i])
              && Join(pieces, ',') == RemoveAll(tags.value, ' ')
  {
    match tags
    case None => []
    case Some(t) =>
      var stripped := RemoveAll(t, ' ');
      JoinSplit(stripped, ',');
      SplitPiecesAvoid(stripped, ',', ' ');
      Split(stripped, ',')
  }

  /** Tags keep their order and their text, less the spaces: splitting the
      comma-joined tags of a list of space- and comma-free tags recovers
      exactly that list. */
  lemma {:induction false} ParseTagsOfJoined(tags: seq<string>)
    requires |tags| >= 1
    requires forall i :: 0 <= i < |tags| ==> ' ' !in tags[i] && ',' !in tags[i]
    ensures ParseTags(Some(Join(tags, ','))) == tags
  {
    JoinAvoids(tags, ',', ' ');
    RemoveAllAbsent(Join(tags, ','), ' ');
    SplitJoin(tags, ',');
  }

  lemma {:induction false} JoinAvoids(pieces: seq<string>, sep: char, x: char)
    requires x != sep
    requires forall i :: 0 <= i < |pieces| ==> x !in pieces[i]
    ensures x !in Join(pieces, sep)
    decreases |pieces|
  {
    if |pieces| > 1 {
      JoinAvoids(pieces[1..], sep, x);
    }
  }

  /** Spaces on either side of a comma disappear: "a, b ,c" gives the tags
      "a", "b" and "c", for any space- and comma-free words in their place. */
  lemma SpacesAroundCommasDropped(a: string, b: string, c: string)
    requires ' ' !in a && ' ' !in b && ' ' !in c
    requires ',' !in a && ',' !in b && ',' !in c
    ensures ParseTags(Some(a + ", " + b + " ," + c)) == [a, b, c]
  {
    ParseTagsSplits(a + ", " + b + " ," + c);
    StripSpacesAroundCommas(a, b, c);
    SplitThreePieces(a, b, c);
  }

  lemma SplitThreePieces(a: string, b: string, c: string)
    requires ',' !in a && ',' !in b && ',' !in c
    ensures Split(a + [','] + (b + [','] + c), ',') == [a, b, c]
  {
    var rest := b + [','] + c;
    SplitWithoutSeparator(c, ',');
    SplitAfterPiece(b, c, ',');
    SplitAfterPiece(a, rest, ',');
    assert [a] + ([b] + [c]) == [a, b, c];
  }

  lemma ParseTagsSplits(t: string)
    ensures ParseTags(Some(t)) == Split(RemoveAll(t, ' '), ',')
  {
  }

  lemma StripSpacesAroundCommas(a: string, b: string, c: string)
    requires ' ' !in a && ' ' !in b && ' ' !in c
    ensures RemoveAll(a + ", " + b + " ," + c, ' ') == a + [','] + (b + [','] + c)
  {
    RemoveAllAbsent(a, ' ');
    RemoveAllAbsent(b, ' ');
    RemoveAllAbsent(c, ' ');
    var x := a + ", ";
    assert RemoveAll(x, ' ') == a + "," by {
      assert RemoveAll(", ", ' ') == "," by {
        RemoveAllAppend(",", " ", ' ');
      }
      RemoveAllAppendTo(a, ", ", ' ', a, ",");
    }
    var y := x + b;
    assert RemoveAll(y, ' ') == a + "," + b by {
      RemoveAllAppendTo(x, b, ' ', a + ",", b);
    }
    var z := y + " ,";
    assert RemoveAll(z, ' ') == a + "," + b + "," by {
      assert RemoveAll(" ,", ' ') == "," by {
        RemoveAllAppend(" ", ",", ' ');
      }
      RemoveAllAppendTo(y, " ,", ' ', a + "," + b, ",");
    }
    RemoveAllAppendTo(z, c, ' ', a + "," + b + ",", c);
    CommaJoinShape(a, b, c);
  }

  lemma CommaJoinShape(a: string, b: string, c: string)
    ensures a + "," + b + "," + c == a + [','] + (b + [','] + c)
  {
  }

  lemma RemoveAllAppendTo(p: string, q: string, c: char, rp: string, rq: string)
    requires RemoveAll(p, c) == rp && RemoveAll(q, c) == rq
    ensures RemoveAll(p + q, c) == rp + rq
  {
    RemoveAllAppend(p, q, c);
  }

  /** An empty tag string is not "no tags": it yields one empty tag. */
  lemma EmptyTagStringGivesOneEmptyTag()
    ensures ParseTags(Some("")) == [""]
  {
    assert RemoveAll("", ' ') == "";
  }

  // ------------------------------------------------------------- feed

  /** The query builders the feed uses. */
  datatype Query = OrderDesc(attribute: string) | Limit(count: nat) | CursorAfter(documentId: string)

  /** Posts per page of the infinite feed. */
  const PageSize := 9

  /** The query list of `getInfinitePosts`: newest update first, one page,
      and after the cursor when one is given. */
  function InfinitePostsQueries(pageParam: Option<string>): (queries: seq<Query>)
    ensures |queries| >= 2 && queries[0] == OrderDesc("$updatedAt") && queries[1] == Limit(PageSize)
    ensures |queries| == 3 <==> Truthy(pageParam)
    ensures |queries| <= 3
    ensures Truthy(pageParam) ==> queries[2] == CursorAfter(pageParam.value)
  {
    var queries := [OrderDesc("$updatedAt"), Limit(PageSize)];
    if Truthy(pageParam) then queries + [CursorAfter(pageParam.value)] else queries
  }

  // ------------------------------------------------------------- posts
  // What each operation does on every path is stated by the lemmas of
  // module Lifecycle; the contracts here give when it succeeds.

  /** The fields of a new post: `file` holds the names of the chosen files,
      of which only the first is used. */
  datatype NewPost = NewPost(userId: DocId, caption: string, file: seq<string>, location: string, tags: Option<string>)

  /** The checks `createPost` passes before it writes: a file was chosen and
      uploaded, a preview URL came back and the file is an image or video. */
  predicate Linkable(post: NewPost, sdk: Outcomes)
  {
    |post.file| > 0 && sdk.upload.Uploaded? && Truthy(sdk.preview) && MediaType(post.file[0]) != Other
  }

  /** `createPost`. Without a file `uploadFile(undefined)` fails like any
      other upload. `newId` is the id `ID.unique()` produces. */
  function CreatePost(s: Store, post: NewPost, sdk: Outcomes, newId: DocId): (r: Run<Post>)
    requires FreshUpload(s, sdk)
    requires newId !in s.posts
    ensures r.result.Some? <==> Linkable(post, sdk) && sdk.write == WriteOk
    ensures r.result.None? ==> r.store.posts == s.posts && s.files <= r.store.files
    ensures r.store.users == s.users
  {
    if |post.file| == 0 || sdk.upload.UploadFailed? then Run(s, [CreateFile], None)
    else
      var id := sdk.upload.id;
      var kind := MediaType(post.file[0]);
      var staged := s.(files := s.files + {id});
      var calls := [CreateFile, GetFileView(id)];
      if !Truthy(sdk.preview) || kind == Other then
        Run(DeleteFileQuietly(staged, id, sdk.deleteSucceeds), calls + [DeleteFile(id)], None)
      else
        var record := Post(post.userId, post.caption, sdk.preview.value, id, post.location,
                           ParseTags(post.tags), kind, None, []);
        var calls := calls + [CreateDocument(newId)];
        match sdk.write
        case WriteOk => Run(staged.(posts := staged.posts[newId := record]), calls, Some(record))
        case WriteFalsy => Run(DeleteFileQuietly(staged, id, sdk.deleteSucceeds), calls + [DeleteFile(id)], None)
        case WriteThrew => Run(staged, calls, None)
  }

  /** The fields of a post edit: the post's current `mediaUrl`/`mediaId`,
      and in `file` the replacement file, if any. */
  datatype PostEdit = PostEdit(
    postId: DocId,
    caption: string,
    file: seq<string>,
    mediaUrl: string,
    mediaId: FileId,
    location: string,
    tags: Option<string>,
    mediaType: string,
    thumbnailUrl: Option<string>)

  /** How a document write against `id` comes back: the store rejects a
      missing document, which the SDK reports by throwing. */
  function WriteTo<V>(docs: map<DocId, V>, id: DocId, sdk: Outcomes): (w: Write)
    ensures id !in docs ==> w == WriteThrew
    ensures id in docs ==> w == sdk.write
  {
    if id in docs then sdk.write else WriteThrew
  }

  /** The upload step of an edit succeeded or was skipped: no replacement
      file, or one that was uploaded and got a preview URL. */
  predicate Staged(file: seq<string>, sdk: Outcomes)
  {
    |file| > 0 ==> sdk.upload.Uploaded? && Truthy(sdk.preview)
  }

  /** `updatePost`. */
  function UpdatePost(s: Store, edit: PostEdit, sdk: Outcomes): (r: Run<Post>)
    requires FreshUpload(s, sdk)
    ensures r.result.Some? <==> Staged(edit.file, sdk) && edit.postId in s.posts && sdk.write == WriteOk
    ensures r.result.Some? ==> r.store.posts == s.posts[edit.postId := r.result.value]
    ensures r.result.None? ==> r.store.posts == s.posts && s.files <= r.store.files
    ensures r.store.users == s.users
  {
    var hasFile := |edit.file| > 0;
    if hasFile && sdk.upload.UploadFailed? then Run(s, [CreateFile], None)
    else if hasFile && !Truthy(sdk.preview) then
      var id := sdk.upload.id;
      Run(DeleteFileQuietly(s.(files := s.files + {id}), id, sdk.deleteSucceeds),
          [CreateFile, GetFileView(id), DeleteFile(id)], None)
    else
      var mediaUrl := if hasFile then sdk.preview.value else edit.mediaUrl;
      var mediaId := if hasFile then sdk.upload.id else edit.mediaId;
      var staged := if hasFile then s.(files := s.files + {mediaId}) else s;
      var calls := (if hasFile then [CreateFile, GetFileView(mediaId)] else []) + [UpdateDocument(edit.postId)];
      match WriteTo(s.posts, edit.postId, sdk)
      case WriteOk =>
        var updated := s.posts[edit.postId].(
          caption := edit.caption, mediaUrl := mediaUrl, mediaId := mediaId, location := edit.location,
          tags := ParseTags(edit.tags), mediaType := edit.mediaType, thumbnailUrl := edit.thumbnailUrl);
        var written := staged.(posts := staged.posts[edit.postId := updated]);
        if hasFile then
          Run(DeleteFileQuietly(written, edit.mediaId, sdk.deleteSucceeds), calls + [DeleteFile(edit.mediaId)], Some(updated))
        else Run(written, calls, Some(updated))
      case WriteFalsy =>
        if hasFile then Run(DeleteFileQuietly(staged, mediaId, sdk.deleteSucceeds), calls + [DeleteFile(mediaId)], None)
        else Run(staged, calls, None)
      case WriteThrew => Run(staged, calls, None)
  }

  /** `deletePost(postId, mediaId)`: the document first, and the file only
      once the document is gone. */
  function DeletePost(s: Store, postId: Option<DocId>, mediaId: Option<FileId>, sdk: Outcomes): (r: Run<()>)
    ensures r.result.Some? <==>
              Truthy(postId) && Truthy(mediaId) && postId.value in s.posts && sdk.write == WriteOk
    ensures r.result.Some? ==> r.store.posts == s.posts - {postId.value} && r.store.users == s.users
    ensures r.result.None? ==> r.store == s
  {
    if !Truthy(postId) || !Truthy(mediaId) then Run(s, [], None)
    else
      var calls := [DeleteDocument(postId.value)];
      match WriteTo(s.posts, postId.value, sdk)
      case WriteOk =>
        var removed := s.(posts := s.posts - {postId.value});
        Run(DeleteFileQuietly(removed, mediaId.value, sdk.deleteSucceeds), calls + [DeleteFile(mediaId.value)], Some(()))
      case _ => Run(s, calls, None)
  }

  // ------------------------------------------------------------- users

  /** The fields of a profile edit: the user's current `imageUrl`/`imageId`,
      and in `file` the replacement picture, if any. */
  datatype UserEdit = UserEdit(
    userId: DocId,
    name: string,
    bio: string,
    file: seq<string>,
    imageUrl: string,
    imageId: Option<FileId>,
    royal: bool)

  /** `updateUser`: as `updatePost`, on the user collection; the old picture
      is deleted only when the old `imageId` is truthy. */
  function UpdateUser(s: Store, edit: UserEdit, sdk: Outcomes): (r: Run<User>)
    requires FreshUpload(s, sdk)
    ensures r.result.Some? <==> Staged(edit.file, sdk) && edit.userId in s.users && sdk.write == WriteOk
    ensures r.result.Some? ==> r.store.users == s.users[edit.userId := r.result.value]
    ensures r.result.None? ==> r.store.users == s.users && s.files <= r.store.files
    ensures r.store.posts == s.posts
  {
    var hasFile := |edit.file| > 0;
    if hasFile && sdk.upload.UploadFailed? then Run(s, [CreateFile], None)
    else if hasFile && !Truthy(sdk.preview) then
      var id := sdk.upload.id;
      Run(DeleteFileQuietly(s.(files := s.files + {id}), id, sdk.deleteSucceeds),
          [CreateFile, GetFileView(id), DeleteFile(id)], None)
    else
      var imageUrl := if hasFile then sdk.preview.value else edit.imageUrl;
      var imageId := if hasFile then Some(sdk.upload.id) else edit.imageId;
      var staged := if hasFile then s.(files := s.files + {sdk.upload.id}) else s;
      var calls := (if hasFile then [CreateFile, GetFileView(sdk.upload.id)] else []) + [UpdateDocument(edit.userId)];
      match WriteTo(s.users, edit.userId, sdk)
      case WriteOk =>
        var updated := s.users[edit.userId].(
          name := edit.name, bio := edit.bio, imageUrl := imageUrl, imageId := imageId, royal := edit.royal);
        var written := staged.(users := staged.users[edit.userId := updated]);
        if Truthy(edit.imageId) && hasFile then
          Run(DeleteFileQuietly(written, edit.imageId.value, sdk.deleteSucceeds),
              calls + [DeleteFile(edit.imageId.value)], Some(updated))
        else Run(written, calls, Some(updated))
      case WriteFalsy =>
        if hasFile then
          Run(DeleteFileQuietly(staged, sdk.upload.id, sdk.deleteSucceeds), calls + [DeleteFile(sdk.upload.id)], None)
        else Run(staged, calls, None)
      case WriteThrew => Run(staged, calls, None)
  }
}
