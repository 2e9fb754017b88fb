# Makestagram likes, timeline and image cache in Dafny

Makestagram is a small photo-sharing app built on the Parse backend. This
project models the parts of it that are logic rather than UI glue, and
proves what they do:

- **Objects** (`objects.dfy`): backend users. Object equality compares
  object ids only, and `contains` is defined in terms of it.
- **ParseHelper** (`parse_helper.dfy`): the backend as an in-memory store,
  the class `Backend`, with Like, Follow and Post records. It covers:
  - `likePost`, which appends a record;
  - `unlikePost`, a loop that deletes each record its query finds;
  - `likesForPost`;
  - the timeline query: followed users or the viewer, newest first, then
    `skip`/`limit` taken from a range.
- **Posts** (`posts.dfy`): the post object, the class `Post`, with its
  optional like list and its image. It covers `doesUserLikePost`,
  `toggleLikePost`, `fetchLikes`, and `downloadImage` with the process-wide
  image cache (the class `ImageCache`).
- **PostTableViewCell** (`post_table_view_cell.dfy`): `stringFromUserList`,
  which joins usernames with `", "`, and the display state (label, button,
  icon) that the `likeBond` closure sets.
- **Wrappers** (`wrappers.dfy`): `Option`, standing for Swift's optionals.

Backend calls take effect on the store at once. The result of an
asynchronous fetch is a method parameter:
- `FetchLikes`: whether the query answered;
- `DownloadImage`: the image data, if any arrived.

Besides the properties of each operation, the model proves how the like
list and the store relate:
- A like list fetched from the store shows exactly the users with a Like
  record for the post.
- Toggling a like updates the list and the store the same way. A list that
  mirrors the store still mirrors it afterwards.

## Model

| member | source | states |
|---|---|---|
| Objects.SameObjectIsEquivalence | Makestagram/Views/PostTableViewCell.swift:108-111 | Equality by object id is reflexive, symmetric and transitive, and is implied by value equality. Two users with one id but different usernames are equal objects without being equal values. |
| Objects.Contains | Makestagram/Models/Post.swift:104 | `contains(list, u)` holds exactly when some element has the object id of `u`. |
| Objects.ContainsConcat | Makestagram/Models/Post.swift:104 | `contains` on a concatenation holds exactly when it holds on one of the parts. |
| ParseHelper.Backend.LikePost | Makestagram/Helpers/ParseHelper.swift:18-24 | The store gains exactly one Like record (user, post) at its end, with no check for an existing one. Follows and posts are unchanged. |
| ParseHelper.LikesOfSelects | Makestagram/Helpers/ParseHelper.swift:28-30 | LikesOf (the query of unlikePost) finds exactly the Like records whose user equals the given user and whose post is the given post, each as often as it is stored. |
| ParseHelper.Backend.UnlikePost | Makestagram/Helpers/ParseHelper.swift:26-41 | The loop deletes each found record in turn. Its invariant: the store equals the original minus the records found so far. Afterwards the store is exactly the original without the records of (user, post). Follows and posts are unchanged. |
| ParseHelper.DeleteNext | Makestagram/Helpers/ParseHelper.swift:36-38 | Deleting the next found record extends the set of deleted records by that one. |
| ParseHelper.DeleteLikesOfIsWithout | Makestagram/Helpers/ParseHelper.swift:35-38 | Deleting every record the query found leaves exactly the records the query does not match. |
| ParseHelper.WithoutLikesOfSelects | Makestagram/Helpers/ParseHelper.swift:26-41 | WithoutLikesOf (the store after unlikePost) holds no record of (user, post). Every other record remains as often as it was stored. |
| ParseHelper.WithoutLikesOfConcat | Makestagram/Helpers/ParseHelper.swift:36-38 | The records unlikePost keeps stay in their store order. |
| ParseHelper.WithoutNoMatchIsIdentity | Makestagram/Helpers/ParseHelper.swift:26-41 | When no record of (user, post) exists, unlikePost leaves the store as it was. |
| ParseHelper.UnlikeIdempotent | Makestagram/Helpers/ParseHelper.swift:28-40 | A second unlikePost changes nothing. |
| ParseHelper.LikesOfConcat | Makestagram/Helpers/ParseHelper.swift:28-32 | The query of unlikePost keeps store order: it distributes over concatenation. |
| ParseHelper.Backend.LikesForPost | Makestagram/Helpers/ParseHelper.swift:44-51 | The result holds exactly the Like records whose post is the given one, each as often as it is stored. |
| ParseHelper.LikesToSelects | Makestagram/Helpers/ParseHelper.swift:44-51 | LikesTo (the query of likesForPost) keeps each record pointing to the post, with its multiplicity, and no other record. |
| ParseHelper.LikesToConcat | Makestagram/Helpers/ParseHelper.swift:44-51 | The query of likesForPost keeps store order. |
| ParseHelper.IsFollowedBy | Makestagram/Helpers/ParseHelper.swift:83-87 | An owner is followed by the viewer exactly when some Follow record goes from the viewer to that owner. |
| ParseHelper.VisibleSelects | Makestagram/Helpers/ParseHelper.swift:86-92 | Visible (the OR query) keeps exactly the posts whose owner is followed by the viewer or is the viewer, each as often as it is stored, and no more posts than the store has. |
| ParseHelper.InsertIsPermutation | Makestagram/Helpers/ParseHelper.swift:94 | Inserting a post into the ordering adds exactly that post, and the first element is either the post or the old head. |
| ParseHelper.InsertKeepsOrder | Makestagram/Helpers/ParseHelper.swift:94 | Inserting into a list ordered newest first keeps it ordered. |
| ParseHelper.SortIsOrderedPermutation | Makestagram/Helpers/ParseHelper.swift:94 | SortByCreatedAtDesc (`orderByDescending(createdAt)`) returns a reordering of its input with non-increasing creation times. |
| ParseHelper.Window | Makestagram/Helpers/ParseHelper.swift:98-101 | `skip`/`limit` yield min(limit, max(0, n - skip)) elements. Element i is element skip + i of the input. |
| ParseHelper.WindowKeepsOrder | Makestagram/Helpers/ParseHelper.swift:94-101 | A page cut from a list ordered newest first is ordered newest first. |
| ParseHelper.WindowsConcatenate | Makestagram/Helpers/ParseHelper.swift:98-101 | The windows for [a, b) and [b, c) concatenate to the window for [a, c). |
| ParseHelper.Timeline | Makestagram/Helpers/ParseHelper.swift:86-94 | The unpaged timeline is ordered newest first. It is a reordering of the posts the OR query keeps. |
| ParseHelper.TimelineMember | Makestagram/Helpers/ParseHelper.swift:86-92 | Every post of the unpaged timeline is in the store and is shown to the viewer. |
| ParseHelper.TimelineRequest | Makestagram/Helpers/ParseHelper.swift:82-104 | A page for a well-formed range has at most endIndex - startIndex posts. Each post is in the store and is owned by the viewer or by a user the viewer follows. The page is ordered newest first. |
| ParseHelper.TimelinePage | Makestagram/Helpers/ParseHelper.swift:92-101 | Any skip/limit window of the unpaged timeline meets those three page properties. |
| ParseHelper.TimelineRequestIsSlice | Makestagram/Helpers/ParseHelper.swift:92-101 | The page for [a, b) is positions a, a+1, … of the unpaged timeline: as many as exist below b. So no matching post inside the window is missing. |
| ParseHelper.ConsecutivePages | Makestagram/Helpers/ParseHelper.swift:98-101 | The pages for [a, b) and [b, c) concatenate to the page for [a, c), when both requests order ties the same way (the model's one fixed order). |
| ParseHelper.SortedOrderIsUnique | Makestagram/Helpers/ParseHelper.swift:94 | With distinct creation times, any two newest-first orders of the same posts are equal. |
| ParseHelper.ConsecutivePagesAnyOrder | Makestagram/Helpers/ParseHelper.swift:94-101 | With distinct creation times, pages [a, b) and [b, c) cut from any two allowed newest-first orders concatenate to the page for [a, c). |
| ParseHelper.TiedPagesMayOverlap | Makestagram/Helpers/ParseHelper.swift:94-101 | With a tie, two requests may order it differently: x@5, y@3, z@3 give pages [x, y] and [y], so y repeats and z is never shown. |
| ParseHelper.LaterPagesAreOlder | Makestagram/Helpers/ParseHelper.swift:94-101 | Every post on an earlier page is at least as new as every post on a later page. |
| ParseHelper.SortedTimesAgree | Makestagram/Helpers/ParseHelper.swift:94 | In any two newest-first orders of the same posts, position i of one is at least as new as any position j ≥ i of the other. So the k-th creation time is the same in every allowed order, ties included. |
| ParseHelper.LaterPagesAreOlderAnyOrder | Makestagram/Helpers/ParseHelper.swift:94-101 | Pages cut from two requests, each with its own allowed order of ties: every post on the earlier page is at least as new as every post on the later one. |
| ParseHelper.WideRangeIsComplete | Makestagram/Helpers/ParseHelper.swift:83-101 | A range from 0 at least as long as the store returns every matching post, each as often as it is stored. |
| ParseHelper.ScenarioMembership | Makestagram/Helpers/ParseHelper.swift:83-90 | Setup: viewer v follows a and b, and c follows v. Then posts of a, b and v are shown to v, and the post of c is not. |
| ParseHelper.ScenarioVisible | Makestagram/Helpers/ParseHelper.swift:86-92 | In that setup the OR query keeps the four posts of a, b, a and v, in store order. |
| ParseHelper.SortAscendingFour | Makestagram/Helpers/ParseHelper.swift:94 | Four posts with increasing creation times come out in reverse order. |
| ParseHelper.TimelineScenario | Makestagram/Helpers/ParseHelper.swift:82-104 | In that setup with times 1 to 5: range [0, 10) gives all four visible posts newest first, [0, 2) the two newest, and [2, 4) the two oldest. |
| Posts.WithoutSelects | Makestagram/Models/Post.swift:113 | Without (the filter toggleLikePost applies to the local list) leaves no element with the user's object id. It keeps exactly the other elements. |
| Posts.WithoutConcat | Makestagram/Models/Post.swift:113 | The filter keeps the relative order of the users it keeps. |
| Posts.WithoutAbsent | Makestagram/Models/Post.swift:113 | A list without the user passes the filter unchanged. |
| Posts.ToggleUnlikes | Makestagram/Models/Post.swift:110-114 | Toggled (the new like list) of a list that holds the user is a list with no element equal to the user. It holds every other user, in the original relative order. |
| Posts.ToggleLikes | Makestagram/Models/Post.swift:115-119 | Toggling a fetched list without the user appends exactly the user after the unchanged old list. |
| Posts.ToggleUnfetched | Makestagram/Models/Post.swift:118 | With the likes not fetched, the optional-chained append leaves the list nil. |
| Posts.ToggleFlips | Makestagram/Models/Post.swift:109-121 | On a fetched list, toggling flips whether the list holds the user. |
| Posts.ToggleTwiceRestores | Makestagram/Models/Post.swift:109-121 | Liking and then unliking a fetched list that lacked the user restores it exactly. |
| Posts.ToggleTwiceFromLikedReorders | Makestagram/Models/Post.swift:109-121 | The reverse is not a round trip: unliking then liking [u, w] gives [w, u]. |
| Posts.LikersSelects | Makestagram/Models/Post.swift:91-99 | Likers (the users fetchLikes maps from the records) holds a user exactly when a record with that user exists. Records with no user are dropped, so there are no more users than records. |
| Posts.LikersConcat | Makestagram/Models/Post.swift:94-99 | The fetched users follow record order. |
| Posts.FetchedLikeIffRecord | Makestagram/Models/Post.swift:89-99 | A freshly fetched list holds the user exactly when the store holds a Like record of that user for the post. |
| Posts.UnlikeMirrored | Makestagram/Models/Post.swift:113-114 | Filtering the user out of a fetched list gives what a fetch after unlikePost would give. |
| Posts.LikeMirrored | Makestagram/Models/Post.swift:118-119 | Appending the user to a fetched list gives what a fetch after likePost would give. |
| Posts.ToggleMirrorsBackend | Makestagram/Models/Post.swift:109-121 | Toggling a list that mirrors the store yields a list that mirrors the store after the matching like or unlike. |
| Posts.UnfetchedToggleMayDuplicate | Makestagram/Models/Post.swift:110-119 | With the likes not fetched, toggling leaves the list nil and issues likePost even when a like exists. The store then holds two records of that like. |
| Posts.ImageCache.constructor | Makestagram/Models/Post.swift:36-44 | The cache starts empty. |
| Posts.Post.constructor | Makestagram/Models/Post.swift:16-20 | A new post has no image and an unfetched (nil) like list. |
| Posts.Post.DoesUserLikePost | Makestagram/Models/Post.swift:102-108 | False while the likes are nil. Otherwise true exactly when some element has the user's object id. |
| Posts.Post.ToggleLikePost | Makestagram/Models/Post.swift:109-121 | The list becomes the toggled list. Already liked: the store loses the user's records for the post. Otherwise: it gains one record. Image, file and owner are unchanged. A list mirroring the store keeps mirroring it. |
| Posts.Post.FetchLikes | Makestagram/Models/Post.swift:82-101 | A present list is left alone. A nil list becomes the users of the post's Like records when the query answers, and then mirrors the store; otherwise it stays nil. |
| Posts.Post.DownloadImage | Makestagram/Models/Post.swift:65-81 | A fetch happens exactly on a cache miss. A hit sets the image from the cache and leaves the cache unchanged. A miss with data sets the image and caches it under the file name. A miss without data leaves the image nil and the cache unchanged. Entries are never removed. |
| PostTableViewCell.Usernames | Makestagram/Views/PostTableViewCell.swift:19 | One username per user, in list order. |
| PostTableViewCell.Join | Makestagram/Views/PostTableViewCell.swift:22 | Joining no parts gives "" and one part gives that part. Otherwise the length is the total part length plus two per separator. |
| PostTableViewCell.JoinAppend | Makestagram/Views/PostTableViewCell.swift:22 | Joining one more part appends ", " and the part. |
| PostTableViewCell.StringFromUserList | Makestagram/Views/PostTableViewCell.swift:16-25 | An empty list gives "" and one user gives that username. n ≥ 1 users give the usernames' total length plus 2·(n-1). |
| PostTableViewCell.LabelAppend | Makestagram/Views/PostTableViewCell.swift:19-22 | One more user appends ", " and that user's name: the usernames appear in list order. |
| PostTableViewCell.SplitJoin | Makestagram/Views/PostTableViewCell.swift:22 | Cutting at each ", " undoes the join, for at least one part and no comma in any part. |
| PostTableViewCell.LabelReadsBack | Makestagram/Views/PostTableViewCell.swift:16-25 | The label of a non-empty list of comma-free usernames reads back as exactly those usernames. |
| PostTableViewCell.EmptyListLooksLikeEmptyName | Makestagram/Views/PostTableViewCell.swift:16-25 | The label does not determine the list: the empty list and one user with an empty name give the same text. |
| PostTableViewCell.LikeBond | Makestagram/Views/PostTableViewCell.swift:33-52 | nil gives label "", button not selected, icon hidden. A list gives label = stringFromUserList(list), selected exactly when an element equals the current user, hidden exactly when the list is empty. |
| PostTableViewCell.ButtonShowsLike | Makestagram/Views/PostTableViewCell.swift:42 | The heart is selected exactly when the post says the current user likes it. |
| PostTableViewCell.TapFlipsButton | Makestagram/Views/PostTableViewCell.swift:67-69 | Tapping the heart on a fetched list flips the button's selected state. |
| PostTableViewCell.IconHiddenIffLabelEmpty | Makestagram/Views/PostTableViewCell.swift:36-51 | When every username is non-empty, the icon is hidden exactly when the label is empty, fetched or not. |
| PostTableViewCell.EmptyNameShowsIcon | Makestagram/Views/PostTableViewCell.swift:39-44 | With a user whose name is empty, the label is empty but the icon shows. |

## Left out

- The Parse network layer and its timing are not modelled: save, find, delete and getData in the background. A write changes the store at once, and a query reads it at once. Callback order and concurrent sessions are concurrency concerns.
- `uploadPost` (Makestagram/Models/Post.swift:45-64) is not modelled. It JPEG-encodes at quality 0.8 (a float platform codec) and uses UIApplication background tasks. Of its model-relevant effects, it only sets `user` and `imageFile` before saving.
- The Bond/`Dynamic` subscription (`->>`, Makestagram/Views/PostTableViewCell.swift:87-90) is not modelled. LikeBond is the function the subscription runs on each new value.
- Makestagram/PhotoTaking/PhotoTakingHelper.swift is not part of this model: it only presents alert and picker controllers.
- Makestagram/ViewControllers/TimelineViewController.swift is not part of this model: it is table data-source glue. Its call at line 29 passes no range, which does not match the signature at Makestagram/Helpers/ParseHelper.swift:82.
- Follow and unfollow are not modelled: they do not exist in this code, so Follow records are only query input. The following sub-query filters on `ParseLikeFromUser` (Makestagram/Helpers/ParseHelper.swift:84). That key has the same value, "fromUser", as `ParseFollowFromUser` (lines 57 and 63), so the model filters on the Follow record's `fromUser`.
- `includeKey` (Makestagram/Helpers/ParseHelper.swift:48 and 93) is not modelled: it makes the backend send related objects along and has no observable effect here.
- ParseHelper.SortByCreatedAtDesc: the order among posts with equal creation times is unspecified in the app. The model fixes one order: ties keep store order. SortIsOrderedPermutation, TimelineRequest and WideRangeIsComplete use only non-increasing times and a permutation, which every allowed order has. TimelineRequestIsSlice, ConsecutivePages and LaterPagesAreOlder relate positions in the fixed order, or pages of two requests that both use it. LaterPagesAreOlderAnyOrder states the page ordering for two requests whose tie orders differ.
- ParseHelper.ConsecutivePages: assumes both requests order ties the same way, which the fixed order gives. The backend does not promise this. TiedPagesMayOverlap shows a repeated and a missing post when the two requests order a tie differently. ConsecutivePagesAnyOrder proves the concatenation for any two allowed orders when creation times are distinct.
- ParseHelper.Backend.LikePost: the save always succeeds. The app ignores the outcome of the save (Makestagram/Helpers/ParseHelper.swift:23), so a failed save loses the like while the local list shows it. ToggleMirrorsBackend and Post.MirrorsBackend depend on every write succeeding.
- ParseHelper.Backend.UnlikePost: the query and every delete always succeed. The app ignores each delete's outcome (Makestagram/Helpers/ParseHelper.swift:37) and deletes nothing when the query fails (line 35). ToggleMirrorsBackend depends on this too.
- ParseHelper.Backend.LikesForPost: the backend's default result limit (100 objects) is not modelled. It also caps the query of unlikePost (Makestagram/Helpers/ParseHelper.swift:28-32) and the following sub-query (line 84). LikesForPost returning exactly the matching records, FetchedLikeIffRecord, and UnlikePost removing every record hold only below that limit.
- Posts.Post.MirrorsBackend: likesForPost promises no order. The model returns records in store order (LikesToConcat), and MirrorsBackend compares sequences. LikeMirrored depends on the new record coming last. A backend with another order yields the same users in another order; FetchedLikeIffRecord and DoesUserLikePost, which depend only on membership, are unaffected.
- ParseHelper.TimelineRequest: the range must satisfy 0 <= startIndex <= endIndex. Swift ranges guarantee start <= end, and the backend rejects a negative skip. The backend's own caps and defaults for `limit` are not modelled.
- ParseHelper.TimelineRequest: a user is always logged in. The app force-unwraps `PFUser.currentUser()` in the timeline query (Makestagram/Helpers/ParseHelper.swift:84 and 90) and traps with nobody logged in. The model takes the current user as a parameter.
- PostTableViewCell.LikeBond: a user is always logged in. The binding force-unwraps `PFUser.currentUser()` for a fetched list (Makestagram/Views/PostTableViewCell.swift:42), and so does the heart's tap handler (line 68). With nobody logged in the app traps there, while the model returns a display.
- Objects.SameObject: object ids are always present in the model. Two unsaved objects, both with a nil id, compare equal in the app; the model has no such objects.
- PostTableViewCell.StringFromUserList: usernames are always present in the model. The app force-unwraps `username` and traps on a user without one.
- Posts.Post.DownloadImage: `requires imageFile.Some?` stands for the trap on the force-unwrapped `imageFile` at Makestagram/Models/Post.swift:67. The model does not cover calling it on a post without a file.
- Posts.Post.DownloadImage: the data arrives already decoded. The app force-unwraps `UIImage(data:)` and traps on data that is not an image. The system cache may evict entries under memory pressure; the model's cache never evicts.
- Posts.Post.DownloadImage: on a miss without data the image ends up nil, not unchanged. The code first assigns the cache lookup, nil on a miss, at Makestagram/Models/Post.swift:67, and the model follows the code.
- ParseHelper.Backend.UnlikePost: Like records are values without an identity. Deleting a found record therefore removes every equal record. Equal records match the same query, so the final store is the same as deleting each one separately.
- Posts.Post.ToggleLikePost: the local list and the store can disagree, for example when toggling before a fetch. The model proves the lists stay in step when they start in step (ToggleMirrorsBackend). UnfetchedToggleMayDuplicate shows the duplicate record toggling a nil list can create.
