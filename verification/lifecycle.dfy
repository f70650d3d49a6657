/** What the post and profile operations of the facade do on each path: which
    SDK calls they make and in what order, which files they add and delete,
    and which fields they write. One lemma per path keeps each proof small. */
module Lifecycle {
  import opened JsValues
  import opened JsString
  import opened Store
  import opened Utils
  import opened Api

  /** The calls of an edit that replaced a file: upload, preview, update,
      then the old file's deletion, made once and after the update. */
  lemma RelinkCalls(id: FileId, doc: DocId, previous: FileId)
    ensures var calls := [CreateFile, GetFileView(id), UpdateDocument(doc), DeleteFile(previous)];
      Before(calls, UpdateDocument(doc), DeleteFile(previous)) && Times(calls, DeleteFile(previous)) == 1
  {
    var calls := [CreateFile, GetFileView(id), UpdateDocument(doc), DeleteFile(previous)];
    assert calls[2] == UpdateDocument(doc) && calls[3] == DeleteFile(previous);
  }

  // ------------------------------------------------------------ createPost

  /** A failed upload (or no file at all) ends `createPost` at once. */
  lemma CreatePostStopsAfterFailedUpload(s: Store, post: NewPost, sdk: Outcomes, newId: DocId)
    requires FreshUpload(s, sdk) && newId !in s.posts
    requires |post.file| == 0 || sdk.upload.UploadFailed?
    ensures var r := CreatePost(s, post, sdk, newId);
      r.store == s && r.calls == [CreateFile] && r.result.None?
  {
  }

  /** A successful `createPost` stores a post that references the fresh
      upload and its preview URL, with the creator, caption, location and
      parsed tags of the input, the file's own (image or video) type and no
      likes, and adds exactly that one file. */
  lemma CreatePostLinksUpload(s: Store, post: NewPost, sdk: Outcomes, newId: DocId)
    requires FreshUpload(s, sdk) && newId !in s.posts
    requires Linkable(post, sdk) && sdk.write == WriteOk
    ensures var r := CreatePost(s, post, sdk, newId);
      && r.result == Some(r.store.posts[newId])
      && r.store.posts == s.posts[newId := r.result.value]
      && r.store.files == s.files + {sdk.upload.id}
      && sdk.upload.id !in s.files
      && r.result.value.mediaId == sdk.upload.id
      && r.result.value.mediaUrl == sdk.preview.value
      && r.result.value.creator == post.userId
      && r.result.value.tags == ParseTags(post.tags)
      && r.result.value.mediaType == MediaType(post.file[0])
      && r.result.value.mediaType in {Image, Video}
      && r.result.value.caption == post.caption
      && r.result.value.location == post.location
      && r.result.value.likes == []
      && r.calls == [CreateFile, GetFileView(sdk.upload.id), CreateDocument(newId)]
  {
  }

  /** A failure `createPost` notices after the upload (no preview URL, a file
      that is neither image nor video, a falsy write) deletes the upload
      again: the store's files are back to what they were once the delete
      succeeds, and no existing file is touched either way. */
  lemma CreatePostCleansUpHandledFailure(s: Store, post: NewPost, sdk: Outcomes, newId: DocId)
    requires FreshUpload(s, sdk) && newId !in s.posts
    requires |post.file| > 0 && sdk.upload.Uploaded?
    requires !Linkable(post, sdk) || sdk.write == WriteFalsy
    ensures var r := CreatePost(s, post, sdk, newId);
      && r.result.None?
      && r.store.posts == s.posts
      && Last(r.calls) == DeleteFile(sdk.upload.id)
      && s.files <= r.store.files <= s.files + {sdk.upload.id}
      && (sdk.deleteSucceeds ==> r.store.files == s.files)
  {
  }

  /** A thrown `createDocument` is caught without deleting the upload: the
      file stays behind, referenced by nothing. */
  lemma CreatePostThrownWriteLeavesUpload(s: Store, post: NewPost, sdk: Outcomes, newId: DocId)
    requires FreshUpload(s, sdk) && newId !in s.posts
    requires Linkable(post, sdk) && sdk.write == WriteThrew
    ensures var r := CreatePost(s, post, sdk, newId);
      && r.result.None?
      && r.store == s.(files := s.files + {sdk.upload.id})
      && DeleteFile(sdk.upload.id) !in r.calls
  {
  }

  /** `createDocument` is reached only once the upload, the preview URL and
      the media type have all checked out. */
  lemma CreatePostWritesOnlyAfterChecks(s: Store, post: NewPost, sdk: Outcomes, newId: DocId)
    requires FreshUpload(s, sdk) && newId !in s.posts
    ensures CreateDocument(newId) in CreatePost(s, post, sdk, newId).calls <==> Linkable(post, sdk)
  {
  }

  // ------------------------------------------------------------ updatePost

  /** An edit without a new file makes one call and writes back the media
      fields it was given; no file is added or deleted. */
  lemma UpdatePostWithoutFile(s: Store, edit: PostEdit, sdk: Outcomes)
    requires FreshUpload(s, sdk) && |edit.file| == 0
    ensures var r := UpdatePost(s, edit, sdk);
      && r.calls == [UpdateDocument(edit.postId)]
      && r.store.files == s.files
      && (r.result.Some? ==> r.result.value.mediaUrl == edit.mediaUrl && r.result.value.mediaId == edit.mediaId)
  {
  }

  /** A failed upload ends `updatePost` at once. */
  lemma UpdatePostStopsAfterFailedUpload(s: Store, edit: PostEdit, sdk: Outcomes)
    requires FreshUpload(s, sdk) && |edit.file| > 0 && sdk.upload.UploadFailed?
    ensures var r := UpdatePost(s, edit, sdk);
      r.store == s && r.calls == [CreateFile] && r.result.None?
  {
  }

  /** A successful edit with a new file points the post at the upload and
      deletes the old file exactly once, after the document was updated; no
      other file is touched. */
  lemma UpdatePostRelinks(s: Store, edit: PostEdit, sdk: Outcomes)
    requires FreshUpload(s, sdk) && |edit.file| > 0
    requires Staged(edit.file, sdk) && edit.postId in s.posts && sdk.write == WriteOk
    ensures var r := UpdatePost(s, edit, sdk);
      && r.result.Some?
      && r.result.value.mediaId == sdk.upload.id
      && r.result.value.mediaUrl == sdk.preview.value
      && Before(r.calls, UpdateDocument(edit.postId), DeleteFile(edit.mediaId))
      && Times(r.calls, DeleteFile(edit.mediaId)) == 1
      && (s.files + {sdk.upload.id}) - {edit.mediaId} <= r.store.files <= s.files + {sdk.upload.id}
  {
    var r := UpdatePost(s, edit, sdk);
    assert r.calls == [CreateFile, GetFileView(sdk.upload.id), UpdateDocument(edit.postId), DeleteFile(edit.mediaId)];
    RelinkCalls(sdk.upload.id, edit.postId, edit.mediaId);
  }

  /** A handled failure after the upload (no preview URL, a falsy write)
      deletes the upload; the post's existing file is never removed. */
  lemma UpdatePostCleansUpHandledFailure(s: Store, edit: PostEdit, sdk: Outcomes)
    requires FreshUpload(s, sdk) && |edit.file| > 0 && sdk.upload.Uploaded?
    requires !Truthy(sdk.preview) || (edit.postId in s.posts && sdk.write == WriteFalsy)
    ensures var r := UpdatePost(s, edit, sdk);
      && r.result.None?
      && Last(r.calls) == DeleteFile(sdk.upload.id)
      && DeleteFile(edit.mediaId) !in r.calls[..|r.calls| - 1]
      && s.files <= r.store.files <= s.files + {sdk.upload.id}
      && (sdk.deleteSucceeds ==> r.store.files == s.files)
  {
  }

  /** A thrown update (including one against a missing post) is caught
      without deleting the upload. */
  lemma UpdatePostThrownWriteLeavesUpload(s: Store, edit: PostEdit, sdk: Outcomes)
    requires FreshUpload(s, sdk) && |edit.file| > 0 && Staged(edit.file, sdk)
    requires edit.postId !in s.posts || sdk.write == WriteThrew
    ensures var r := UpdatePost(s, edit, sdk);
      && r.result.None?
      && r.store == s.(files := s.files + {sdk.upload.id})
      && r.calls == [CreateFile, GetFileView(sdk.upload.id), UpdateDocument(edit.postId)]
  {
  }

  /** The fields a successful update writes: caption, location, parsed tags,
      media type and thumbnail come from the edit, while the creator and the
      likes are kept. */
  lemma UpdatePostWritesFields(s: Store, edit: PostEdit, sdk: Outcomes)
    requires FreshUpload(s, sdk) && Staged(edit.file, sdk) && edit.postId in s.posts && sdk.write == WriteOk
    ensures var p := UpdatePost(s, edit, sdk).result.value;
      && p.caption == edit.caption
      && p.location == edit.location
      && p.tags == ParseTags(edit.tags)
      && p.mediaType == edit.mediaType
      && p.thumbnailUrl == edit.thumbnailUrl
      && p.creator == s.posts[edit.postId].creator
      && p.likes == s.posts[edit.postId].likes
  {
  }

  /** A failed update never deletes the file the post was given. */
  lemma UpdatePostKeepsOldFileOnFailure(s: Store, edit: PostEdit, sdk: Outcomes)
    requires FreshUpload(s, sdk)
    ensures var r := UpdatePost(s, edit, sdk);
      r.result.None? ==> s.files <= r.store.files && DeleteFile(edit.mediaId) !in r.calls[..|r.calls| - 1]
  {
  }

  // ------------------------------------------------------------ deletePost

  /** `deletePost` deletes the document before the file, and the file only
      when the document was deleted; with a falsy id it makes no call. */
  lemma DeletePostOrder(s: Store, postId: Option<DocId>, mediaId: Option<FileId>, sdk: Outcomes)
    ensures var r := DeletePost(s, postId, mediaId, sdk);
      && (!Truthy(postId) || !Truthy(mediaId) ==> r.calls == [])
      && (r.result.Some? ==>
            && Before(r.calls, DeleteDocument(postId.value), DeleteFile(mediaId.value))
            && r.store.files <= s.files
            && s.files - {mediaId.value} <= r.store.files)
      && (r.result.None? ==> forall f :: DeleteFile(f) !in r.calls)
  {
    var r := DeletePost(s, postId, mediaId, sdk);
    if r.result.Some? {
      assert r.calls[0] == DeleteDocument(postId.value) && r.calls[1] == DeleteFile(mediaId.value);
    }
  }

  // ------------------------------------------------------------ updateUser

  /** A failed upload ends `updateUser` at once. */
  lemma UpdateUserStopsAfterFailedUpload(s: Store, edit: UserEdit, sdk: Outcomes)
    requires FreshUpload(s, sdk) && |edit.file| > 0 && sdk.upload.UploadFailed?
    ensures var r := UpdateUser(s, edit, sdk);
      r.store == s && r.calls == [CreateFile] && r.result.None?
  {
  }

  /** A successful profile edit with a new picture points the user at the
      upload and, when there was an old picture, deletes it exactly once,
      after the update. */
  lemma UpdateUserRelinks(s: Store, edit: UserEdit, sdk: Outcomes)
    requires FreshUpload(s, sdk) && |edit.file| > 0
    requires Staged(edit.file, sdk) && edit.userId in s.users && sdk.write == WriteOk
    ensures var r := UpdateUser(s, edit, sdk);
      && r.result.Some?
      && r.result.value.imageId == Some(sdk.upload.id)
      && r.result.value.imageUrl == sdk.preview.value
      && (Truthy(edit.imageId) ==>
            && Before(r.calls, UpdateDocument(edit.userId), DeleteFile(edit.imageId.value))
            && Times(r.calls, DeleteFile(edit.imageId.value)) == 1
            && (s.files + {sdk.upload.id}) - {edit.imageId.value} <= r.store.files <= s.files + {sdk.upload.id})
      && (!Truthy(edit.imageId) ==> r.store.files == s.files + {sdk.upload.id})
  {
    var r := UpdateUser(s, edit, sdk);
    if Truthy(edit.imageId) {
      assert r.calls == [CreateFile, GetFileView(sdk.upload.id), UpdateDocument(edit.userId), DeleteFile(edit.imageId.value)];
      RelinkCalls(sdk.upload.id, edit.userId, edit.imageId.value);
    }
  }

  /** A profile edit without a new picture makes one call and touches no file. */
  lemma UpdateUserWithoutFile(s: Store, edit: UserEdit, sdk: Outcomes)
    requires FreshUpload(s, sdk) && |edit.file| == 0
    ensures var r := UpdateUser(s, edit, sdk);
      && r.calls == [UpdateDocument(edit.userId)]
      && r.store.files == s.files
      && (r.result.Some? ==> r.result.value.imageId == edit.imageId && r.result.value.imageUrl == edit.imageUrl)
  {
  }

  /** A handled failure after the upload deletes the upload and nothing else. */
  lemma UpdateUserCleansUpHandledFailure(s: Store, edit: UserEdit, sdk: Outcomes)
    requires FreshUpload(s, sdk) && |edit.file| > 0 && sdk.upload.Uploaded?
    requires !Truthy(sdk.preview) || (edit.userId in s.users && sdk.write == WriteFalsy)
    ensures var r := UpdateUser(s, edit, sdk);
      && r.result.None?
      && Last(r.calls) == DeleteFile(sdk.upload.id)
      && s.files <= r.store.files <= s.files + {sdk.upload.id}
      && (sdk.deleteSucceeds ==> r.store.files == s.files)
  {
  }

  /** A thrown update is caught without deleting the upload. */
  lemma UpdateUserThrownWriteLeavesUpload(s: Store, edit: UserEdit, sdk: Outcomes)
    requires FreshUpload(s, sdk) && |edit.file| > 0 && Staged(edit.file, sdk)
    requires edit.userId !in s.users || sdk.write == WriteThrew
    ensures var r := UpdateUser(s, edit, sdk);
      && r.result.None?
      && r.store == s.(files := s.files + {sdk.upload.id})
  {
  }

  /** The fields a successful profile edit writes: name, bio and the royal
      flag come from the edit; account id, email and username are kept. */
  lemma UpdateUserWritesFields(s: Store, edit: UserEdit, sdk: Outcomes)
    requires FreshUpload(s, sdk) && Staged(edit.file, sdk) && edit.userId in s.users && sdk.write == WriteOk
    ensures var u := UpdateUser(s, edit, sdk).result.value;
      && u.name == edit.name
      && u.bio == edit.bio
      && u.royal == edit.royal
      && u.accountId == s.users[edit.userId].accountId
      && u.email == s.users[edit.userId].email
      && u.username == s.users[edit.userId].username
  {
  }
}
