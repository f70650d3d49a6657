/** The store invariant the lifecycle operations are written to keep: every
    file a document references is live, and no file is referenced by two
    documents (so deleting a document's file cannot leave another document
    dangling). */
module Ownership {
  import opened JsValues
  import opened Store
  import opened Api
  import opened Lifecycle

  /** Every referenced file is live. */
  ghost predicate Linked(s: Store)
  {
    && (forall p :: p in s.posts ==> s.posts[p].mediaId in s.files)
    && (forall u :: u in s.users && s.users[u].imageId.Some? ==> s.users[u].imageId.value in s.files)
  }

  /** No file is referenced by two documents. */
  ghost predicate Exclusive(s: Store)
  {
    && (forall p, q :: p in s.posts && q in s.posts && p != q ==> s.posts[p].mediaId != s.posts[q].mediaId)
    && (forall u, v :: u in s.users && v in s.users && u != v && s.users[u].imageId.Some? ==>
          s.users[u].imageId != s.users[v].imageId)
    && (forall p, u :: p in s.posts && u in s.users ==> s.users[u].imageId != Some(s.posts[p].mediaId))
  }

  ghost predicate Owned(s: Store)
  {
    Linked(s) && Exclusive(s)
  }

  /** No document references `f`. */
  ghost predicate Unreferenced(s: Store, f: FileId)
  {
    && (forall p :: p in s.posts ==> s.posts[p].mediaId != f)
    && (forall u :: u in s.users ==> s.users[u].imageId != Some(f))
  }

  /** Dropping a file no document references, or adding any file, keeps the
      documents linked. */
  lemma RemovingUnreferencedKeepsOwned(s: Store, f: FileId)
    requires Owned(s) && Unreferenced(s, f)
    ensures Owned(s.(files := s.files - {f}))
  {
  }

  /** Adding files while the documents stay as they were keeps the invariant. */
  lemma MoreFilesKeepOwned(s: Store, t: Store)
    requires Owned(s)
    requires t.posts == s.posts && t.users == s.users && s.files <= t.files
    ensures Owned(t)
  {
  }

  /** The file ids an optional image id stands for. */
  function FilesOf(id: Option<FileId>): (fs: set<FileId>)
    ensures id.None? ==> fs == {}
    ensures id.Some? ==> fs == {id.value}
  {
    if id.Some? then {id.value} else {}
  }

  /** A new post that owns a fresh file keeps the invariant. */
  lemma AddingPostKeepsOwned(s: Store, t: Store, pid: DocId)
    requires Owned(s) && pid !in s.posts && pid in t.posts
    requires t.posts == s.posts[pid := t.posts[pid]] && t.users == s.users
    requires t.posts[pid].mediaId !in s.files && t.files == s.files + {t.posts[pid].mediaId}
    ensures Owned(t)
  {
    var f := t.posts[pid].mediaId;
    forall p, q | p in t.posts && q in t.posts && p != q
      ensures t.posts[p].mediaId != t.posts[q].mediaId
    {
      if p != pid && q != pid {
        assert t.posts[p] == s.posts[p] && t.posts[q] == s.posts[q];
      }
    }
  }

  /** A post moved to file `f` (its own file, or a fresh one) keeps the
      invariant, even once its previous file is gone. */
  lemma RelinkingPostKeepsOwned(s: Store, t: Store, pid: DocId)
    requires Owned(s) && pid in s.posts && pid in t.posts
    requires t.posts == s.posts[pid := t.posts[pid]] && t.users == s.users
    requires var f := t.posts[pid].mediaId; f == s.posts[pid].mediaId || f !in s.files
    requires t.posts[pid].mediaId in t.files
    requires s.files - {s.posts[pid].mediaId} <= t.files
    ensures Owned(t)
  {
    var previous := s.posts[pid].mediaId;
    forall p | p in t.posts
      ensures t.posts[p].mediaId in t.files
    {
      if p != pid {
        assert t.posts[p] == s.posts[p];
      }
    }
    forall p, q | p in t.posts && q in t.posts && p != q
      ensures t.posts[p].mediaId != t.posts[q].mediaId
    {
      if p != pid && q != pid {
        assert t.posts[p] == s.posts[p] && t.posts[q] == s.posts[q];
      } else if p == pid {
        assert t.posts[q] == s.posts[q];
      } else {
        assert t.posts[p] == s.posts[p];
      }
    }
    forall p, u | p in t.posts && u in t.users
      ensures t.users[u].imageId != Some(t.posts[p].mediaId)
    {
      if p != pid {
        assert t.posts[p] == s.posts[p];
      }
    }
    forall u | u in t.users && t.users[u].imageId.Some?
      ensures t.users[u].imageId.value in t.files
    {
      assert s.users[u].imageId != Some(previous);
    }
  }

  /** A profile moved to image `f` (its own, or a fresh file) keeps the
      invariant, even once its previous image is gone. */
  lemma RelinkingUserKeepsOwned(s: Store, t: Store, uid: DocId)
    requires Owned(s) && uid in s.users && uid in t.users
    requires t.users == s.users[uid := t.users[uid]] && t.posts == s.posts
    requires var f := t.users[uid].imageId; f == s.users[uid].imageId || (f.Some? && f.value !in s.files)
    requires t.users[uid].imageId.Some? ==> t.users[uid].imageId.value in t.files
    requires s.files - FilesOf(s.users[uid].imageId) <= t.files
    ensures Owned(t)
  {
    var previous := s.users[uid].imageId;
    forall u | u in t.users && t.users[u].imageId.Some?
      ensures t.users[u].imageId.value in t.files
    {
      if u != uid {
        assert t.users[u] == s.users[u];
      }
    }
    forall u, v | u in t.users && v in t.users && u != v && t.users[u].imageId.Some?
      ensures t.users[u].imageId != t.users[v].imageId
    {
      if u != uid && v != uid {
        assert t.users[u] == s.users[u] && t.users[v] == s.users[v];
      } else if u == uid {
        assert t.users[v] == s.users[v];
      } else {
        assert t.users[u] == s.users[u];
      }
    }
    forall p, u | p in t.posts && u in t.users
      ensures t.users[u].imageId != Some(t.posts[p].mediaId)
    {
      if u != uid {
        assert t.users[u] == s.users[u];
      }
    }
    forall p | p in t.posts
      ensures t.posts[p].mediaId in t.files
    {
      assert Some(s.posts[p].mediaId) != previous;
    }
  }

  // ---------------------------------------------------------- operations

  /** `createPost` keeps the invariant on every path: the new post owns the
      fresh upload, and a failure leaves at most an unreferenced file. */
  lemma CreatePostKeepsOwnership(s: Store, post: NewPost, sdk: Outcomes, newId: DocId)
    requires Owned(s) && FreshUpload(s, sdk) && newId !in s.posts
    ensures Owned(CreatePost(s, post, sdk, newId).store)
  {
    var r := CreatePost(s, post, sdk, newId);
    if r.result.Some? {
      CreatePostLinksUpload(s, post, sdk, newId);
      AddingPostKeepsOwned(s, r.store, newId);
    } else {
      MoreFilesKeepOwned(s, r.store);
    }
  }

  /** `updatePost` keeps the invariant when it is given the post's current
      `mediaId` (an obligation on the caller, which `updatePost` does not
      check): the post moves to the fresh upload and only then is its
      previous file, which nothing else references, deleted. */
  lemma UpdatePostKeepsOwnership(s: Store, edit: PostEdit, sdk: Outcomes)
    requires Owned(s) && FreshUpload(s, sdk)
    requires edit.postId in s.posts ==> edit.mediaId == s.posts[edit.postId].mediaId
    ensures Owned(UpdatePost(s, edit, sdk).store)
  {
    if UpdatePost(s, edit, sdk).result.None? {
      MoreFilesKeepOwned(s, UpdatePost(s, edit, sdk).store);
    } else {
      UpdatedPostKeepsOwnership(s, edit, sdk);
    }
  }

  /** The successful paths of `UpdatePostKeepsOwnership`. */
  lemma UpdatedPostKeepsOwnership(s: Store, edit: PostEdit, sdk: Outcomes)
    requires Owned(s) && FreshUpload(s, sdk)
    requires Staged(edit.file, sdk) && edit.postId in s.posts && sdk.write == WriteOk
    requires edit.mediaId == s.posts[edit.postId].mediaId
    ensures Owned(UpdatePost(s, edit, sdk).store)
  {
    var t := UpdatePost(s, edit, sdk).store;
    if |edit.file| > 0 {
      UpdatePostRelinks(s, edit, sdk);
    } else {
      UpdatePostWithoutFile(s, edit, sdk);
    }
    RelinkingPostKeepsOwned(s, t, edit.postId);
  }

  /** `deletePost` keeps the invariant when it is given the post's own
      `mediaId`: the document goes first, so its file is unreferenced by the
      time it is deleted. */
  lemma DeletePostKeepsOwnership(s: Store, postId: Option<DocId>, mediaId: Option<FileId>, sdk: Outcomes)
    requires Owned(s)
    requires Truthy(postId) && postId.value in s.posts ==> mediaId == Some(s.posts[postId.value].mediaId)
    ensures Owned(DeletePost(s, postId, mediaId, sdk).store)
  {
    var r := DeletePost(s, postId, mediaId, sdk);
    if r.result.Some? {
      var removed := s.(posts := s.posts - {postId.value});
      assert Owned(removed);
      assert Unreferenced(removed, mediaId.value);
      if sdk.deleteSucceeds {
        assert r.store == removed.(files := removed.files - {mediaId.value});
        RemovingUnreferencedKeepsOwned(removed, mediaId.value);
      } else {
        assert r.store == removed;
      }
    }
  }

  /** `updateUser` keeps the invariant when it is given the user's current
      `imageId`: the profile moves to the fresh upload before the previous
      picture, if any, is deleted. */
  lemma UpdateUserKeepsOwnership(s: Store, edit: UserEdit, sdk: Outcomes)
    requires Owned(s) && FreshUpload(s, sdk)
    requires edit.userId in s.users ==> edit.imageId == s.users[edit.userId].imageId
    ensures Owned(UpdateUser(s, edit, sdk).store)
  {
    if UpdateUser(s, edit, sdk).result.None? {
      MoreFilesKeepOwned(s, UpdateUser(s, edit, sdk).store);
    } else {
      UpdatedUserKeepsOwnership(s, edit, sdk);
    }
  }

  /** The successful paths of `UpdateUserKeepsOwnership`. */
  lemma UpdatedUserKeepsOwnership(s: Store, edit: UserEdit, sdk: Outcomes)
    requires Owned(s) && FreshUpload(s, sdk)
    requires Staged(edit.file, sdk) && edit.userId in s.users && sdk.write == WriteOk
    requires edit.imageId == s.users[edit.userId].imageId
    ensures Owned(UpdateUser(s, edit, sdk).store)
  {
    var t := UpdateUser(s, edit, sdk).store;
    if |edit.file| > 0 {
      UpdateUserRelinks(s, edit, sdk);
    } else {
      UpdateUserWithoutFile(s, edit, sdk);
    }
    RelinkingUserKeepsOwned(s, t, edit.userId);
  }
}
