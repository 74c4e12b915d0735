# Instagram Mini: the post store and the client's state merges

A Dafny model of the core of a small photo-sharing demo. The Node/Express API keeps
every post in one in-memory array. It lists posts (sorting that array in place, most
recent first), creates posts from an uploaded image, toggles likes and appends comments
in place, and serves a profile that filters the posts by author. The React client keeps
its own copy of the list and merges the server's answers into it. Its post card formats
relative times, like labels and the collapsed comment list.

Modules (one file each):

- `Text` (`text.dfy`): the JavaScript string behaviour the code relies on.
  That is `trim` (JavaScript's white-space and line-terminator set), the suffix test a
  `$`-anchored regular expression such as the upload filter's performs, and how an
  integer prints in a template literal, with a parser that reads the number back.
- `Domain` (`domain.dfy`): the `Post`, `Comment` and `User` records, `Option`, the
  handlers' `Reply` (a status with a body or with an error message), and
  `Array.prototype.find`.
- `Likes` (`likes.dfy`): the like toggle on one post and what it preserves.
- `FeedOrder` (`feed_order.dfy`): the stable most-recent-first sort of `GET /api/posts`.
- `Server` (`server.dfy`): the class `PostStore` holding `posts` (updated in place by
  the handlers) and the constant `users`. It also holds the upload filename filter
  and the profile filter.
- `PostView` (`post_view.dfy`): the pure helpers of `Post.js`.
- `App` (`app.dfy`): the list merges of `App.js`. The server's answer is a parameter,
  and the lemmas show that the client stays equal to the store.

Identifiers, comment identifiers and timestamps are parameters. Timestamps are integer
milliseconds since the epoch, the value `new Date(...)` gives for the ISO strings the
server stores. The clock the client compares against is a parameter too. The image
upload appears only as its outcome: the stored file's URL, or none.

Where the design description and the code disagree, the model follows the code:

- The like counter is not the size of the liker list. The seed post starts with
  `likes: 15` and `likedBy: []` (server.js:61-62), and no handler brings the two
  together. What every handler keeps is `likes - |likedBy|` per post, and that no name
  appears twice in `likedBy`. Hence the store invariant `PostStore.Valid` is "no
  duplicates and `likes >= |likedBy|`", and the counter is never negative.
- Toggling twice restores the counter and the set of likers, but not always the list.
  An unlike removes the name where it stands and a like appends it, so `["alice",
  "bob"]` becomes `["bob", "alice"]` (`Likes.ToggleTwiceReorders`).
- A file with a non-image name is rejected by the upload filter with a plain `Error`.
  The error middleware answers such errors with status 500, not 400 (server.js:188-196).
  The middleware itself is not modelled.
- The server does not validate comment text. Only the client refuses blank comments.
- Listing is most recent first but not strictly: posts with equal timestamps keep their
  stored order. A new post is first only until a listing re-sorts it by its timestamp.
- No handler registers users, so every profile except `demo_user`'s answers 404.

## Model

| member | source | states |
|---|---|---|
| `Domain.Find` | server.js:119 | `find` yields the first index whose element matches, or none exactly when no element matches |
| `Text.Trim` | client/src/App.js:69-74 | `String.prototype.trim`: leading then trailing JavaScript white space dropped; specified by `TrimEmptyIffBlank`, `TrimIdempotent` and `TrimIsInnerSlice` |
| `Text.TrimEmptyIffBlank` | client/src/App.js:69 | `text.trim()` is empty (falsy) exactly when every character of the text is JavaScript white space |
| `Text.TrimIdempotent` | client/src/App.js:74 | trimming an already trimmed text changes nothing |
| `Text.TrimIsInnerSlice` | client/src/App.js:74 | the trimmed text is a contiguous piece of the original with only white space cut from either end |
| `Text.NatToDecimalRoundTrip` | client/src/components/Post.js:32 | the decimal rendering of a count reads back as that count, with no leading zero except for 0 |
| `Text.NatToDecimalInjective` | client/src/components/Post.js:32 | different counts render as different digit strings |
| `Text.IntToDecimalRoundTrip` | client/src/components/Post.js:81 | rendering an integer, negative ones with a `-`, reads back as the same integer |
| `Likes.IndexOf` | server.js:124 | `indexOf` is -1 exactly when the name is absent; otherwise it is the position of the first occurrence |
| `Likes.RemoveFirst` | server.js:127 | the liker list without the first occurrence of the name: one shorter when the name is present, unchanged when absent; `SpliceAtIndexOf` ties it to the splice, `RemoveFirstMultiset` and `RemoveFirstNoDuplicates` state what it removes |
| `Likes.Toggled` | server.js:124-133 | the post after a like toggle (unlike: remove the first occurrence and decrement; like: append and increment); specified by the `Toggle*` lemmas below and used by `Server.PostStore.ToggleLike` |
| `Likes.SpliceAtIndexOf` | server.js:124-127 | splicing one entry at `indexOf` removes exactly the first occurrence of the name |
| `Likes.RemoveFirstMultiset` | server.js:127 | the splice takes one copy of the name out of the likers and leaves every other name's count alone |
| `Likes.RemoveFirstNoDuplicates` | server.js:127 | on a duplicate-free list the splice leaves the list duplicate-free and without the name |
| `Likes.ToggleKeepsLikeSurplus` | server.js:124-133 | a toggle changes only `likes` and `likedBy`, and keeps likes minus the number of likers |
| `Likes.ToggleChangesOneName` | server.js:124-133 | an unlike removes one copy of the name and decrements `likes`; a like adds one copy and increments it |
| `Likes.ToggleKeepsNoDuplicates` | server.js:124-133 | a toggle keeps the liker list duplicate-free |
| `Likes.ToggleFlipsMembership` | server.js:124-133 | on a duplicate-free list a toggle flips whether the name likes the post and keeps every other name's membership |
| `Likes.ToggleWithDuplicateStaysLiked` | server.js:124-128 | whenever the name is listed two or more times, an unlike decrements `likes` but the name still likes the post |
| `Likes.ToggleTwiceRestores` | server.js:124-133 | two toggles by one name restore `likes`, the multiset of likers and every other field |
| `Likes.ToggleTwiceRestoresList` | server.js:124-133 | two toggles restore the liker list itself when the name was absent or last |
| `Likes.ToggleTwiceReorders` | server.js:127-131 | on a duplicate-free list holding the name, unlike-then-like gives the list without the name followed by the name, which differs from the original whenever the name was not last |
| `Likes.ToggleParity` | server.js:124-133 | after n toggles membership is flipped exactly when n is odd, `likes` moves by one only when n is odd, and the surplus and no-duplicates hold |
| `FeedOrder.SortNewestFirst` | server.js:78 | the order a listing leaves the array in, a stable insertion sort most recent first; specified by `SortNewestFirstCorrect` and `StableOrderUnique` |
| `FeedOrder.SortNewestFirstCorrect` | server.js:78 | a listing orders the posts most recent first, is a permutation, and keeps posts with equal timestamps in stored order |
| `FeedOrder.StableOrderUnique` | server.js:78 | only one arrangement is most recent first with each timestamp's posts in a given order, so the stable sort is fully determined |
| `FeedOrder.SortOfNewestFirstIsIdentity` | server.js:78 | a listing leaves an already most-recent-first array as it is |
| `FeedOrder.SortIdempotent` | server.js:78 | listing twice gives the same order as listing once |
| `FeedOrder.PrependNewestKeepsOrder` | server.js:106 | prepending a post at least as recent as all others keeps the array most recent first |
| `Server.SeedPost` | server.js:55-68 | the demo post with its fixed fields, 15 likes, no likers and one comment, stamped with the two clock readings; `SeedLikesDifferFromLikers` states its counter surplus |
| `Server.SeedLikesDifferFromLikers` | server.js:55-68 | the seed post's counter exceeds its liker count by 15, so likes equal to the number of likers is not an invariant |
| `Server.IsImageFilename` | server.js:47 | the upload filter's regular expression as four case-sensitive suffix tests; characterised by `ImageFilenameByExtension` |
| `Server.ImageFilenameByExtension` | server.js:47 | the filter accepts a name exactly when the text after its last dot is `jpg`, `jpeg`, `png` or `gif` |
| `Server.ImageFilenameHasImageExtension` | server.js:47 | every accepted name has an image extension after its last dot |
| `Server.ImageExtensionIsImageFilename` | server.js:47 | every name with an image extension after its last dot is accepted |
| `Server.ImageFilenameCaseSensitive` | server.js:47 | `cat.jpg` and `cat.jpeg` pass; `cat.JPG` and `cat.jpg.exe` do not |
| `Server.PostsBy` | server.js:168 | every post the profile filter keeps is by the requested user |
| `Server.PostsByCounts` | server.js:168 | the filter keeps each post by the user as often as it is stored, and no other post |
| `Server.PostsByConcat` | server.js:168 | the filter keeps stored order: filtering a concatenation concatenates the filtered parts |
| `Server.PostStore.constructor` | server.js:55-72 | the store starts with the seed post and the single seed user, and satisfies the invariant |
| `Server.PostStore.ListPosts` | server.js:77-80 | the stored array becomes its stable most-recent-first sort, the answer is that array, and the invariant holds |
| `Server.PostStore.CreatePost` | server.js:83-112 | no image gives 400 and no change; a missing or empty username gives 400 and no change; otherwise 201 with the new post (zero likes, no likers, no comments, caption defaulting to empty) prepended to the old posts |
| `Server.PostStore.ToggleLike` | server.js:115-136 | an unknown id gives 404 and no change; otherwise only the first post with the id is replaced by its toggle, keeping its likes minus the number of likers, and the answer is that post |
| `Server.PostStore.AddComment` | server.js:139-157 | an unknown id gives 404 and no change; otherwise only the first post with the id gains the new comment at the end, with unchecked username and text, and the answer is that comment |
| `Server.PostStore.UserProfile` | server.js:160-175 | 404 exactly when no user has the name; otherwise 200 with a registered user's fields, the user's posts in stored order and `postCount` equal to their number |
| `Server.OnlySeedUserHasProfile` | server.js:70-72 | with the seeded user list, a profile exists exactly for `demo_user` |
| `Server.ValidLikesNonNegative` | server.js:55-68 | in every store that satisfies the invariant, like counters are non-negative |
| `PostView.IsLiked` | client/src/components/Post.js:9 | `likedBy.includes(username)`; related to the server's test by `IsLikedMatchesServerTest` and `ToggleFlipsHeart` |
| `PostView.IsLikedMatchesServerTest` | client/src/components/Post.js:9 | the card shows a post liked exactly when the server's `indexOf` test would unlike it on a click |
| `PostView.ToggleFlipsHeart` | client/src/components/Post.js:9 | on a duplicate-free liker list the server's toggle flips the card's liked state |
| `PostView.LikeLabel` | client/src/components/Post.js:81 | `1 like` for one like, the count and `likes` otherwise; specified by `LikeLabelReadsBack` |
| `PostView.LikeLabelReadsBack` | client/src/components/Post.js:81 | the label is the like count followed by `like` exactly when the count is 1, and by `likes` otherwise |
| `PostView.FormatTimestamp` | client/src/components/Post.js:24-39 | the relative time label with the clock as a parameter; specified by `FormatTimestampUnits` and `FormatTimestampReadsBack` |
| `PostView.FloorHoursThenDays` | client/src/components/Post.js:28-29 | flooring to hours and then to days equals flooring the milliseconds to days |
| `PostView.FormatTimestampUnits` | client/src/components/Post.js:24-39 | an age under a minute, future times included, shows `now`; under an hour whole minutes with `m`; under a day whole hours with `h`; otherwise whole days with `d` |
| `PostView.FormatTimestampReadsBack` | client/src/components/Post.js:24-39 | every label but `now` ends in `d`, `h` or `m`, and its digits read back as the age floored to that unit |
| `PostView.DisplayedComments` | client/src/components/Post.js:10 | all comments when expanded, `slice(0, 2)` when collapsed; specified by `DisplayedCommentsPrefix` |
| `PostView.ShowsViewAll` | client/src/components/Post.js:92 | the "View all" control's condition; related to the shown comments by `CommentControls` |
| `PostView.ShowsShowLess` | client/src/components/Post.js:108 | the "Show less" control's condition; related to the shown comments by `CommentControls` |
| `PostView.DisplayedCommentsPrefix` | client/src/components/Post.js:10 | the shown comments are a prefix of the post's comments: all of them when expanded, at most the first two when collapsed |
| `PostView.CommentControls` | client/src/components/Post.js:92-108 | "View all" appears exactly when comments are hidden, "Show less" exactly when more than two are shown, never both |
| `PostView.CommentSubmit` | client/src/components/Post.js:16-22 | what submitting the comment form sends and leaves in the input; specified by `CommentSubmitGuard` |
| `PostView.CommentSubmitGuard` | client/src/components/Post.js:16-22 | the form sends the untrimmed draft and clears it exactly when the draft is not blank; a blank draft is kept and nothing is sent |
| `App.Login` | client/src/App.js:36-37 | the session `handleLogin` records: the username and `<username>@example.com`; specified by `LoginEmail` |
| `App.LoginEmail` | client/src/App.js:36-40 | the session keeps the username, and the email ends in `@example.com` with the username before it |
| `App.PostCreated` | client/src/App.js:47-50 | the created post comes first and the old list follows unchanged |
| `App.ReplaceById` | client/src/App.js:60-62 | the list keeps its length and order; exactly the posts with the id are replaced |
| `App.AppendCommentById` | client/src/App.js:77-81 | the list keeps its length and order; exactly the posts with the id gain the comment at the end, and nothing else changes |
| `App.LikePost` | client/src/App.js:52-66 | with no user, nothing is sent and nothing changes; otherwise a like request with the user's name is sent, and only posts with the id take the server's answer |
| `App.AddComment` | client/src/App.js:68-85 | with no user or a blank comment, nothing is sent and nothing changes; otherwise the trimmed text is sent and only posts with the id gain the returned comment |
| `App.LikeKeepsClientInSync` | client/src/App.js:60-62 | with unique ids, merging the server's answer into a list equal to the store gives the store after its toggle |
| `App.CommentKeepsClientInSync` | client/src/App.js:77-81 | with unique ids, merging the returned comment gives the store after its append |
| `App.DuplicateIdsDesync` | client/src/App.js:60-62 | for a two-post list `[a, b]` whose posts share an id and a like count, merging the store's answer overwrites both posts while the store toggled only `a`, so client and store differ |
| `App.SubmittedCommentIsSent` | client/src/App.js:68-75 | a comment the card submits while a user is logged in is always sent, carrying the trimmed draft |

## Left out

- Express wiring, CORS and body parsing, static serving, the single-page fallback, the
  health endpoint and `app.listen` (server.js:24-29, 177-185, 198-201): framework plumbing.
- The S3 upload through multer-s3, the storage key `posts/<Date.now()>-<uuid>-<name>`, the
  10 MB limit and the error middleware (server.js:15-44, 188-196): SDK-bound. The upload
  is only its outcome (`Option` of the URL); the filename filter is modelled on its own.
- The `try`/`catch` that answers 500 in post creation (server.js:108-111): nothing in the
  modelled handler body can throw.
- uuid generation, `new Date().toISOString()` and the client's `new Date()`: these are
  parameters. Timestamps that do not parse as dates (NaN) are not modelled.
- JSON bodies missing `username` or `text`: the like and comment handlers take strings.
  The source would push `undefined` into `likedBy` or store it in a comment.
- Numbers are unbounded integers. JavaScript's floating point, exponent notation
  above 1e21 and `-0` do not arise for realistic counts and ages.
- React rendering, hooks, axios, async/await and localStorage in App.js. The merges
  are modelled with the server's answer as a parameter. The stale `posts` captured
  before an `await` is not modelled.
- PostForm.js (preview, alerts, multipart form), Header.js and Feed.js (rendering),
  Login.js (a trim guard before `handleLogin`): UI with no further logic to state.
- Concurrency: there is none. Each handler runs to completion in a single thread.
