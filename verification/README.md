# VibeSphere post/media facade — a Dafny model

VibeSphere is a social-media web client whose data layer is a thin facade
over a backend-as-a-service SDK (document store plus file store). This
project models the two parts of that client whose behaviour can be stated
exactly:

- the pure helpers of `src/lib/utils.js`: file-extension extraction and
  media-type classification against the image and video allow-lists,
  like-list membership, and the relative-time bucketing of
  `multiFormatDateString`;
- the post/media lifecycle of `src/lib/appwrite/api.js`: `createPost`,
  `updatePost`, `deletePost` and `updateUser`. `createPost` always uploads;
  `updatePost` and `updateUser` upload only when a new file is given. The
  upload is followed by the preview URL, the document write and the cleanup.
  `deletePost` deletes the document, then the file. The model
  also covers the tag-string parsing those functions share and the query
  list of `getInfinitePosts`.

Modules:

| file | module | contents |
|---|---|---|
| `js_values.dfy` | `JsValues` | `Option` for `undefined`/`null`, JavaScript truthiness of an optional string |
| `js_string.dfy` | `JsString` | `split` on one character, `join`, `replace(/c/g, "")`, `toLowerCase`, decimal numerals, and the lemmas relating them |
| `utils.dfy` | `Utils` | `getFileExtension`, `getMediaType`, the extension lists, `checkIsLiked` |
| `relative_time.dfy` | `RelativeTime` | `multiFormatDateString` over integer milliseconds |
| `store.dfy` | `Store` | post and user records, the abstract store, SDK outcomes, the call log |
| `api.dfy` | `Api` | tag parsing, feed queries, `createPost`, `updatePost`, `deletePost`, `updateUser` |
| `lifecycle.dfy` | `Lifecycle` | what each path of the four lifecycle operations does: calls and their order, files added and deleted, fields written |
| `ownership.dfy` | `Ownership` | the store invariant (every referenced file is live, no file shared) and its preservation |

How the model is set up:

- **The store** is a set of live file ids plus two maps from document id to
  record: posts and users.
- **Every SDK outcome is an input.** An `Outcomes` value carries four
  things: the upload result, the preview URL, how the document write came
  back (ok, falsy or thrown) and whether `storage.deleteFile` succeeds.
  Uploaded file ids must be fresh (`FreshUpload`). The new post's id is a
  parameter with the same freshness requirement.
- **Each operation is a pure function** from a store to a `Run`. A `Run`
  holds the store afterwards, the sequence of SDK calls made, and the
  returned value (`None` for `undefined`). The call log lets the contracts
  state ordering, for example "the old file is deleted after the document
  update".
- **Timestamps** are integer milliseconds. An unparseable timestamp is
  `None`. The clock reading `now` and the absolute-date formatter are
  parameters.

Behaviour of the code a reader might not expect, which the model keeps:

- An empty tag string gives one empty tag `[""]`, not an empty list. Only
  the space character U+0020 is removed, not all whitespace.
- When `createDocument` (in `createPost`) or `updateDocument` (in
  `updatePost`/`updateUser`) throws, the `catch` only logs. The fresh upload
  stays in the file store. Only a falsy write result triggers the cleanup,
  so a failure leaves no new file behind only when it is a handled one.
- `deletePost` deletes the file only when the document deletion returned a
  truthy value.
- "1 day ago" is produced for a floored day count of 1, i.e. any elapsed
  time in [24 h, 48 h).
- `updateUser` deletes the old picture only when the old `imageId` is
  truthy.
- `updatePost` writes `mediaType` from its input and never reclassifies the
  replacement file.
- `updatePost` and `deletePost` delete whichever `mediaId` the caller passes,
  and `updateUser` whichever `imageId`, without checking it against the
  document. A stale id can delete another document's file.

Modelling choices worth knowing:

- A falsy write result means nothing was written.
- The store rejects an update or delete of a missing document, which the SDK
  reports by throwing (`Api.WriteTo`).
- `createPost` with an empty `file` list calls `uploadFile(undefined)`. That
  call fails, so the model treats it as a failed upload.
- `deleteFile` swallows errors (`Store.DeleteFileQuietly`): it either
  removes the file or leaves the store unchanged.

## Model

| member | source | states |
|---|---|---|
| `Utils.FileExtension` | VibeSphere-main/src/lib/utils.js:73-75 | the extension is the lower-cased text after the last dot and contains no dot; a dotless name is taken whole |
| `Utils.MediaType` | VibeSphere-main/src/lib/utils.js:60-70 | "image" exactly when the extension is on the image list, "video" exactly when it is on the video list, "other" exactly when it is on neither |
| `Utils.ExtensionListsDisjoint` | VibeSphere-main/src/lib/utils.js:78-79 | no extension is on both lists |
| `Utils.MediaTypeIsOneOfThree` | VibeSphere-main/src/lib/utils.js:63-69 | the classification is always "image", "video" or "other" |
| `Utils.MediaTypeIgnoresAsciiCase` | VibeSphere-main/src/lib/utils.js:74 | switching the ASCII case of letters in a file name changes neither its extension nor its classification |
| `Utils.DotlessNameIsItsOwnExtension` | VibeSphere-main/src/lib/utils.js:73-75 | a dotless "PNG" has extension "png" and classifies as image |
| `Utils.ExtensionAfterLastDot` | VibeSphere-main/src/lib/utils.js:74 | whatever precedes the final dot, the dot-free text after it is the last piece of the split |
| `Utils.TrailingDotGivesEmptyExtension` | VibeSphere-main/src/lib/utils.js:73-75 | any name ending in a dot has the empty extension and classifies as other |
| `Utils.UpperCaseVideoExtension` | VibeSphere-main/src/lib/utils.js:60-79 | only the text after the last dot counts, in any case: any name ending in ".MKV" (such as "a.b.MKV") is a video |
| `Utils.CheckIsLiked` | VibeSphere-main/src/lib/utils.js:55-57 | the answer is true exactly when the user id occurs in the like list |
| `JsString.JoinSplit` | VibeSphere-main/src/lib/appwrite/api.js:137 | joining the pieces of a split with the separator gives back the split string |
| `JsString.SplitJoin` | VibeSphere-main/src/lib/appwrite/api.js:137 | splitting a join of separator-free pieces gives back the pieces |
| `JsString.LastPieceIsTail` | VibeSphere-main/src/lib/utils.js:74 | the last piece of a split is the tail after the last separator, or the whole string when there is none |
| `JsString.SplitToLower` | VibeSphere-main/src/lib/utils.js:74 | lower-casing before or after splitting at dots gives the same pieces |
| `JsString.RemoveAllKeepsOthers` | VibeSphere-main/src/lib/appwrite/api.js:137 | removing every space keeps every other character as often as it occurred |
| `JsString.NatToString` | VibeSphere-main/src/lib/utils.js:43-49 | the number in a relative-time text is a non-empty digit string without a leading zero that reads back as the number |
| `RelativeTime.RoundToSecond` | VibeSphere-main/src/lib/utils.js:29-30 | the timestamp is moved to the nearest whole second, halves rounded up |
| `RelativeTime.Classify` | VibeSphere-main/src/lib/utils.js:28-52 | each bucket holds exactly an interval of elapsed time: at least 30 days is absolute, [1, 2) days is "1 day ago", [2, 30) days is "n days ago", [1 h, 1 day) gives 1..23 hours, [1 min, 1 h) gives 1..59 minutes, anything less (including the future) and an unparseable timestamp is "Just now"; each count is the floored quotient |
| `RelativeTime.MultiFormatDateString` | VibeSphere-main/src/lib/utils.js:28-53 | from 30 days on the text is the absolute format of the timestamp; otherwise the text reads back as exactly the bucket the elapsed time falls into |
| `RelativeTime.RenderReadsBack` | VibeSphere-main/src/lib/utils.js:42-51 | every relative text reads back as the bucket it was rendered from, so no two buckets share a text |
| `RelativeTime.LeadingZeroIsNotRead` | VibeSphere-main/src/lib/utils.js:44-49 | a numeral with a leading zero ("05 days ago") is never a rendered count and reads back as no number |
| `RelativeTime.SampleAges` | VibeSphere-main/src/lib/utils.js:39-51 | 45 s ago is "Just now", 90 min ago is 1 hour, 25 h ago is "1 day ago", 40 days ago is absolute |
| `Api.ParseTags` | VibeSphere-main/src/lib/appwrite/api.js:137 | no tags give []; otherwise there is one piece more than there are commas, no piece holds a space or comma, and the pieces joined with commas are the input without its spaces |
| `Api.ParseTagsOfJoined` | VibeSphere-main/src/lib/appwrite/api.js:322 | the comma-joined text of any non-empty list of space- and comma-free tags parses back to that list; the empty list joins to "", which parses to `[""]` |
| `Api.SpacesAroundCommasDropped` | VibeSphere-main/src/lib/appwrite/api.js:137 | "a, b ,c" parses to the three tags a, b, c for any space- and comma-free words |
| `Api.EmptyTagStringGivesOneEmptyTag` | VibeSphere-main/src/lib/appwrite/api.js:322 | the empty tag string parses to one empty tag |
| `Api.InfinitePostsQueries` | VibeSphere-main/src/lib/appwrite/api.js:255-260 | the list starts with newest-update-first and a limit of 9; a third entry, cursor-after the page parameter, is present exactly when the page parameter is truthy |
| `Api.CreatePost` | VibeSphere-main/src/lib/appwrite/api.js:123-192 | a post is created exactly when the upload succeeded, a preview URL came back, the file is an image or video and the write succeeded; users never change; on failure no post is created and no existing file is removed |
| `Api.UpdatePost` | VibeSphere-main/src/lib/appwrite/api.js:297-361 | the update succeeds exactly when the upload step succeeded or was skipped, the post exists and the write succeeded; then only the edited post changes; on failure the posts are unchanged and no existing file is removed; users never change |
| `Api.DeletePost` | VibeSphere-main/src/lib/appwrite/api.js:364-382 | the deletion succeeds exactly when both ids are truthy, the post exists and the document deletion succeeded; then only that post is gone; a failure changes nothing |
| `Api.UpdateUser` | VibeSphere-main/src/lib/appwrite/api.js:523-579 | as for updatePost, on the user collection; posts never change |
| `Lifecycle.CreatePostStopsAfterFailedUpload` | VibeSphere-main/src/lib/appwrite/api.js:125-127 | a failed upload (or no file) makes no further call and changes nothing |
| `Lifecycle.CreatePostLinksUpload` | VibeSphere-main/src/lib/appwrite/api.js:129-152 | on success the new post references the fresh upload and its preview URL, carries the creator, caption, location and parsed tags of the input, the (image or video) type `getMediaType` gives the file, and no likes; exactly that one file is added, and the calls are upload, preview, create |
| `Lifecycle.CreatePostCleansUpHandledFailure` | VibeSphere-main/src/lib/appwrite/api.js:131-157 | a missing preview URL, an unsupported file or a falsy write ends with deleting the upload; files end between the old set and the old set plus the upload, and exactly the old set when the delete succeeds |
| `Lifecycle.CreatePostThrownWriteLeavesUpload` | VibeSphere-main/src/lib/appwrite/api.js:139-191 | a thrown document write is caught without deleting the upload, which stays in the file store |
| `Lifecycle.CreatePostWritesOnlyAfterChecks` | VibeSphere-main/src/lib/appwrite/api.js:125-139 | the document write is attempted exactly when the upload, the preview URL and the media type all checked out |
| `Lifecycle.UpdatePostWithoutFile` | VibeSphere-main/src/lib/appwrite/api.js:298-339 | without a new file only the document update is made, no file is added or deleted, and the given media URL and id are written back |
| `Lifecycle.UpdatePostStopsAfterFailedUpload` | VibeSphere-main/src/lib/appwrite/api.js:306-309 | a failed upload makes no further call and changes nothing |
| `Lifecycle.UpdatePostRelinks` | VibeSphere-main/src/lib/appwrite/api.js:318-355 | on success with a new file the post points at the upload and its URL, and the old file is deleted exactly once and after the document update; no other file is removed |
| `Lifecycle.UpdatePostCleansUpHandledFailure` | VibeSphere-main/src/lib/appwrite/api.js:312-349 | a missing preview URL or a falsy write ends with deleting the upload and never deletes the old file; files end between the old set and the old set plus the upload |
| `Lifecycle.UpdatePostThrownWriteLeavesUpload` | VibeSphere-main/src/lib/appwrite/api.js:325-360 | a thrown update, including one against a missing post, leaves the upload behind after upload, preview and update calls |
| `Lifecycle.UpdatePostWritesFields` | VibeSphere-main/src/lib/appwrite/api.js:322-337 | caption, location, parsed tags, media type and thumbnail come from the edit; creator and likes are kept |
| `Lifecycle.UpdatePostKeepsOldFileOnFailure` | VibeSphere-main/src/lib/appwrite/api.js:341-355 | a failed update removes no existing file and deletes the old file at no point before its last call |
| `Lifecycle.DeletePostOrder` | VibeSphere-main/src/lib/appwrite/api.js:364-378 | a falsy id makes no call; on success the document deletion comes before the file deletion and only that file can go; a failure deletes no file |
| `Lifecycle.UpdateUserStopsAfterFailedUpload` | VibeSphere-main/src/lib/appwrite/api.js:531-534 | a failed upload makes no further call and changes nothing |
| `Lifecycle.UpdateUserRelinks` | VibeSphere-main/src/lib/appwrite/api.js:543-574 | on success with a new picture the user points at the upload and its URL; a truthy old image id is deleted exactly once and after the update, otherwise only the upload is added |
| `Lifecycle.UpdateUserWithoutFile` | VibeSphere-main/src/lib/appwrite/api.js:524-559 | without a new picture only the document update is made, no file is touched and the given image URL and id are written back |
| `Lifecycle.UpdateUserCleansUpHandledFailure` | VibeSphere-main/src/lib/appwrite/api.js:537-568 | a missing preview URL or a falsy write ends with deleting the upload; files end between the old set and the old set plus the upload |
| `Lifecycle.UpdateUserThrownWriteLeavesUpload` | VibeSphere-main/src/lib/appwrite/api.js:547-579 | a thrown update, including one against a missing user, leaves the upload behind |
| `Lifecycle.UpdateUserWritesFields` | VibeSphere-main/src/lib/appwrite/api.js:547-558 | name, bio and the royal flag come from the edit; account id, email and username are kept |
| `Store.DeleteFileQuietly` | VibeSphere-main/src/lib/appwrite/api.js:229-236 | a delete removes at most the given file and never touches documents; after a failed delete the file may remain |
| `Ownership.CreatePostKeepsOwnership` | VibeSphere-main/src/lib/appwrite/api.js:123-157 | createPost keeps every referenced file live and no file shared by two documents |
| `Ownership.UpdatePostKeepsOwnership` | VibeSphere-main/src/lib/appwrite/api.js:297-355 | given the post's current media id, updatePost keeps every referenced file live and unshared: the old file goes only after the post has moved to the new one |
| `Ownership.DeletePostKeepsOwnership` | VibeSphere-main/src/lib/appwrite/api.js:364-378 | given the post's own media id, deletePost keeps every referenced file live and unshared |
| `Ownership.UpdateUserKeepsOwnership` | VibeSphere-main/src/lib/appwrite/api.js:523-574 | given the user's current image id, updateUser keeps every referenced file live and unshared |

## Left out

- Auth and session pass-throughs (`createUserAccount`, `saveUserToDB`, `signInAccount`, `getAccount`, `getCurrentUser`, `signOutAccount`): each returns whatever one SDK call returns.
- Read and query operations answered by the backend (`searchPosts`, the result of `getInfinitePosts`, `getPostById`, `getUserPosts`, `getRecentPosts`, `getUsers`, `getUserById`): only the client-side query list of `getInfinitePosts` is modelled. That successive pages do not overlap depends on the server.
- `likePost`, `savePost`, `deleteSavedPost`: single whole-field writes or join-record writes whose effect is decided by the backend. The `likePost` overwrite race needs concurrency, and concurrency is not modelled: every operation is one atomic step.
- `uploadFile` and `getFilePreview` exist only as their outcomes (`Store.Outcomes`). The file contents and the URL format are opaque.
- `formatDateString` is the absolute formatter parameter, because it does locale formatting. Parsing with `new Date(timestamp)` is left out: the timestamp arrives already parsed (or `None`).
- Floating-point division in `multiFormatDateString` is restated exactly over integer milliseconds.
- `cn` and `convertFileToUrl`: wrappers around third-party libraries and the browser URL API.
- The commented-out video-processing block in `createPost` is dead code.
- React components, routing, the payment page and the navigation constants: UI with no behaviour to state.
- Document fields with the value `undefined`: JSON serialisation drops them from an update, leaving the stored value. The model writes every field as given.
- `Api.UpdatePost` and `Api.UpdateUser`: `post.file.length` on a missing `file` throws before the `try`. This is not modelled, because `file` is always a list here.
- `Api.InfinitePostsQueries`: takes the page parameter as an optional string, so a numeric cursor and its `toString` are not modelled.
- `Api.CreatePost` and `Api.UpdatePost`: return the record they wrote. The backend's server-assigned fields (`$id`, timestamps) are not modelled.
- `Utils.FileExtension`: lower-cases only ASCII capitals and the KELVIN SIGN. Other non-ASCII case mappings of `toLowerCase` are not modelled. None of them can produce an extension on either list, so the classification is unaffected, but the extension text can differ.
- `Api.DeletePost`, `Api.UpdatePost`, `Api.UpdateUser`: the post and user documents are kept separate from the saved-post join records. Deleting a post does not model what the backend does to its saves.
