# Social ledger model

This project models the data layer of a small social network. The layer is
`database/models.py`, and it holds users, posts, likes, comments,
notifications, stories, support tickets and staff accounts in SQLite. The
project also models the three JSON endpoints of `app.py` that write to it, and
the upload-extension check `allowed_file`.

The store is an immutable record, `Schema.Db`. It has one sequence of rows per
table, in rowid order, and next to each table the AUTOINCREMENT counter SQLite
keeps for it in `sqlite_sequence`. Every operation is a pure function:

- A read takes a `Db` and returns rows.
- A write takes a `Db` and returns a `Step`: the new store and what the Python
  function returns.

The clock is an explicit `now: nat`, in seconds. The SQL clauses become shared
primitives in `Query`:

- `ORDER BY … DESC` is a stable sort on the negated timestamp.
- `LIMIT` follows SQLite's rule that a negative limit means "no limit".
- `JOIN users` drops rows whose owner has no users row, because the declared
  foreign keys are never switched on.

Modules:

| file | module | models |
|---|---|---|
| wrappers.dfy | `Wrappers` | `Option`: a NULL column, a missing row, a refused insert; `Result`: an insert that succeeded or failed its NOT NULL check |
| query.dfy | `Query` | ORDER BY (insertion sort) and LIMIT |
| schema.dfy | `Schema` | the row types, the store, the declared constraints (`Valid`), the join with `users` |
| users.dfy | `Users` | `User.create` / `get_by_id` / `get_by_username`, `AdminUser.create` |
| posts.dfy | `Posts` | `Post.create`, `count_by_user`, `toggle_like`, `get_feed`, `get_by_user`, `add_comment`, `get_comments` |
| notifications.dfy | `Notifications` | `Notification.create` / `get_by_user` / `mark_as_read` |
| stories.dfy | `Stories` | `Story.create` / `get_active_stories` |
| support.dfy | `Support` | `SupportTicket.create` / `get_by_user` / `update_status` |
| upload.dfy | `Upload` | `allowed_file` |
| handlers.dfy | `Handlers` | `create_post`, `like_post`, `comment_post` |

`Schema.Valid` collects the invariants of every store the operations can
build:

- in every table, likes included, ids are positive, strictly increasing in rowid order, and never above the table's AUTOINCREMENT counter (so the INTEGER PRIMARY KEY never repeats);
- usernames and emails are unique, for users and for admins;
- no two like rows share a `(post_id, user_id)` pair;
- the stored `posts.likes_count` column is 0 on every row.

Every write preserves `Valid`. The NOT NULL columns are kept by the types;
the declared foreign keys are not part of `Valid`, because SQLite never
enforces them here.

The corrected listings, `Posts.GetFeed` and `Posts.GetByUser`, report live
like counts computed from the `likes` rows. The listings as the code builds
them (`Posts.GetFeedAsWritten`, `Posts.GetByUserAsWritten`) report the stored
`posts.likes_count` column instead, and by the last invariant above that is
always 0. See "## Findings".

## Model

| member | source | states |
|---|---|---|
| `Schema.EmptyIsValid` | database/models.py:20-185 | a freshly created store, with every table empty, meets every invariant of `Valid`: the primary-key, AUTOINCREMENT and UNIQUE constraints the schema declares, and the stored like count of 0 |
| `Schema.AppendKeepsIdsAscending` | database/models.py:22 | appending a row whose id is the AUTOINCREMENT counter plus one keeps a table's ids positive, increasing and within the new counter |
| `Schema.IdsAscendingTail` | database/models.py:22 | the rows after the first of an AUTOINCREMENT table still have ascending ids, all above the first row's id |
| `Schema.ConsKeepsIdsAscending` | database/models.py:22 | a row whose id lies below every id of an ascending table can stand in front of it |
| `Schema.IdsAscendingDistinct` | database/models.py:22 | a table whose AUTOINCREMENT ids increase holds no row twice, and any two different rows have different ids |
| `Schema.FindUser` | database/models.py:240 | the lookup finds a row with the requested id exactly when one exists, and finds nothing otherwise |
| `Schema.Join` | database/models.py:290-291 | the join pairs each kept row with its owner's users row, and keeps every row whose owner exists; rows with no owner row drop out; a table with no repeated row gives a join with no repeated row |
| `Query.SortBy` | database/models.py:292 | ORDER BY returns a permutation of its input (the same multiset) sorted on the key |
| `Query.LimitCount` | database/models.py:293 | LIMIT lets through at most `limit` rows and never more than there are, and a negative limit lets through all of them |
| `Query.TopBy` | database/models.py:292-293 | ORDER BY … LIMIT returns a sorted sub-multiset of the rows, as many as the limit allows, and every row left out has a key no smaller than every row returned |
| `Query.TopByKeepsSmaller` | database/models.py:292-293 | a row whose key is strictly smaller than that of a returned row is itself returned, so LIMIT cuts only from the far end |
| `Query.DistinctSub` | database/models.py:292-293 | a sub-multiset of a sequence with no repeated element has no repeated element either, so ORDER BY … LIMIT never repeats a row |
| `Query.AllKept` | database/models.py:293 | when LIMIT lets every row through, no row is lost |
| `Users.Create` | database/models.py:212-223 | registration returns None and leaves the store unchanged exactly when the username or the email is already taken; otherwise it appends one row with the column defaults, returns a fresh id larger than every existing one, and keeps usernames and emails unique |
| `Users.GetById` | database/models.py:235-243 | the result is the row with that id, and it is None exactly when no row has the id |
| `Users.GetByUsername` | database/models.py:225-233 | the result is a row with that username, and it is None exactly when no row has the username |
| `Users.CreateAdmin` | database/models.py:389-400 | staff registration follows the same rule on `admin_users`: None with no write when the name or email is taken, otherwise one appended row with a fresh id |
| `Users.CreateThenLookup` | database/models.py:212-243 | after a successful registration both lookups return the new row, and registering the same username again returns None without a write |
| `Posts.Create` | database/models.py:255-267 | creating a post appends one row with stored like count 0 and a fresh id; a NULL content raises the NOT NULL error and nothing is written |
| `Posts.PostsBy` | database/models.py:274 | the filter keeps exactly the posts whose author is the user, and repeats none of them |
| `Posts.CountByUser` | database/models.py:270-277 | the count is 0 exactly when the user wrote no post and never exceeds the number of posts; in a valid store it is the number of distinct posts the user wrote |
| `Posts.CreateCountsOnce` | database/models.py:270-277 | creating a post raises its author's post count by one and leaves every other user's count unchanged |
| `Posts.NoRowsNoLikes` | database/models.py:340 | a post that no like row names has count 0 and is liked by no one |
| `Posts.WithoutPair` | database/models.py:331 | the DELETE keeps exactly the like rows of other pairs |
| `Posts.LikeCountWithout` | database/models.py:330-332 | under the UNIQUE constraint, deleting a pair's rows lowers its post's count by one when the pair was liked, and changes no other post's count |
| `Posts.WithoutPairKeepsIds` | database/models.py:330-332 | the DELETE keeps the surviving like rows in rowid order, so their ids stay ascending and bounded by the counter |
| `Posts.WithoutPairKeepsUnique` | database/models.py:66 | deleting a pair's rows keeps like pairs unique |
| `Posts.AppendKeepsUnique` | database/models.py:334 | inserting an absent pair keeps like pairs unique |
| `Posts.ToggleLike` | database/models.py:321-344 | an existing like is removed with action unliked and an absent one is inserted with action liked; afterwards the pair is liked exactly when the action is liked; no other pair's rows change; the returned count is the post's like rows after the toggle, one more (liked) or one less (unliked) than before; nothing but the likes table changes; the constraints are kept |
| `Posts.ToggleTwiceRestoresPairs` | database/models.py:321-344 | two toggles of the same pair return opposite actions and restore exactly which pairs are liked |
| `Posts.ToggleTwiceRestoresCounts` | database/models.py:321-344 | under the UNIQUE constraint, two toggles of the same pair restore every post's like count, and the second reports the original count |
| `Posts.ToggleTwiceRestoresRows` | database/models.py:330-335 | liking an unliked pair and toggling it again gives back exactly the original like rows |
| `Posts.Listing` | database/models.py:285-294 | the listing holds as many joined posts as LIMIT allows, each with its author row and live counts, newest first; no joinable post newer than a listed one is left out, and none is left out when the limit admits all; when the rows are distinct, no post is listed twice |
| `Posts.GetFeed` | database/models.py:285-294 | the feed draws on every author's posts with no friendship filter; items are newest first, at most `limit`, with live like and comment counts, and `user_liked` is true exactly when the viewer has a like row on the post; no joinable post newer than a listed one is left out, none is left out when the limit admits all, and in a valid store no post id is listed twice |
| `Posts.GetByUser` | database/models.py:305-315 | the profile listing holds only that user's posts, newest first, at most `limit`, with live counts; `user_liked` is computed against the author's own id; a user with no users row gets an empty list; none of the user's posts newer than a listed one is left out, none is left out when the limit admits all, and in a valid store no post id is listed twice |
| `Posts.FeedAgreesWithToggle` | database/models.py:287-289 | after a toggle, every feed item for that post shows the count the toggle returned, and shows the toggling user the new liked state |
| `Posts.ListingAsWritten` | database/models.py:285-298 | the listing as written holds the corrected listing's rows in the same order, each with the stored `likes_count` column in place of the live count |
| `Posts.AsWrittenIsListing` | database/models.py:285-298 | the second `likes_count` column changes no row's `created_at`, so ORDER BY and LIMIT pick the same rows in the same order; only the count differs |
| `Posts.GetFeedAsWritten` | database/models.py:285-298 | `get_feed` as written is the corrected feed row for row, each item with the stored like count |
| `Posts.GetByUserAsWritten` | database/models.py:305-318 | `get_by_user` as written is the corrected profile listing row for row, each item with the stored like count; it holds only the user's posts |
| `Posts.AsWrittenReportsZero` | database/models.py:40 | in every store the operations build, both listings as written report 0 likes on every post |
| `Posts.LikedOwnPostFacts` | database/models.py:321-344 | on a fresh store, one registration, one post and one like: the toggle answers liked with count 1, and the post joins with its author |
| `Posts.AsWrittenMissesLike` | database/models.py:285-318 | on that store the corrected feed and profile listing show 1 like, while both listings as written show 0 |
| `Posts.AddComment` | database/models.py:347-359 | adding a comment appends one row with a fresh id and raises that post's comment count by one, and no other post's; a NULL content writes nothing |
| `Posts.CommentsOn` | database/models.py:371 | the filter keeps exactly the comments on the post, and repeats none of them |
| `Posts.GetComments` | database/models.py:362-377 | the listing holds exactly the post's comments whose author exists, each with its author row, oldest first; in a valid store no comment id is listed twice |
| `Posts.AddCommentListed` | database/models.py:347-377 | a comment added by an existing user appears in its post's comment listing |
| `Posts.AddCommentKeepsOthers` | database/models.py:347-377 | adding a comment to one post leaves every other post's comment listing unchanged |
| `Notifications.Create` | database/models.py:570-585 | creating a notification appends one unread row for the user with a fresh id; nothing else changes |
| `Notifications.OwnedBy` | database/models.py:595 | the filter keeps exactly the user's notifications, and repeats none of them |
| `Notifications.GetByUser` | database/models.py:588-602 | the listing holds only the user's notifications, newest first, as many as LIMIT allows; none newer than a listed one is left out, and none at all when the limit admits all; in a valid store no notification id is listed twice |
| `Notifications.MarkAsRead` | database/models.py:605-615 | every row with the id is marked read, only the `read` column changes, every other row is unchanged, and True is returned |
| `Notifications.MarkAsReadTouchesOneRow` | database/models.py:610-612 | in a valid store at most one row changes, and marking twice equals marking once |
| `Notifications.CreateThenList` | database/models.py:570-602 | a newly created notification is listed, unread, for its user when the limit admits all |
| `Stories.Create` | database/models.py:532-547 | creating a story appends one row that expires `expires_hours` times 3600 seconds after its creation time |
| `Stories.Unexpired` | database/models.py:559 | the filter keeps exactly the stories whose expiry lies after the read time, and repeats none of them |
| `Stories.GetActive` | database/models.py:550-565 | the listing holds exactly the unexpired stories whose owner exists, each with its owner row, newest first; in a valid store no story id is listed twice |
| `Stories.ActiveWindow` | database/models.py:532-565 | a new story is listed at a read time exactly when that time is before its expiry |
| `Support.Create` | database/models.py:428-440 | opening a ticket appends one `open`, unassigned row whose created and updated times are both the creation time |
| `Support.OpenedBy` | database/models.py:452 | the filter keeps exactly the user's tickets, and repeats none of them |
| `Support.GetByUser` | database/models.py:443-458 | the listing holds exactly the user's tickets, provided the user exists, each with the user row, newest first; in a valid store no ticket id is listed twice |
| `Support.UpdateStatus` | database/models.py:479-491 | on rows with the id, the update overwrites status and assignee (an omitted assignee clears it) and stamps the update time; every other row and column is unchanged; True is returned |
| `Support.UpdateTouchesOneRow` | database/models.py:484-488 | in a valid store at most one ticket changes, and repeating the update changes nothing |
| `Support.UpdateThenList` | database/models.py:443-491 | after an update, the owner's listing shows the new status, assignee and update time on that ticket |
| `Upload.LastDot` | app.py:21 | the position found holds a dot with no dot after it, and nothing is found exactly when the name has no dot |
| `Upload.Extension` | app.py:21 | the extension is the dot-free suffix that follows a dot at the end of the name |
| `Upload.ExtensionOfJoin` | app.py:21 | the extension of `base.ext` is `ext` whenever `ext` has no dot, whatever dots `base` holds |
| `Upload.AllowedFile` | app.py:20-21 | a name is accepted exactly when some dot has no dot after it and the text after that dot lower-cases to png, jpg, jpeg or gif |
| `Upload.VerdictAt` | app.py:21 | at a known last dot, the verdict is whether the lower-cased text after it is an allowed extension |
| `Upload.AllowedFileOfJoin` | app.py:20-21 | `base.ext` is accepted exactly when `ext` lower-cases to png, jpg, jpeg or gif |
| `Upload.NoDotRejected` | app.py:21 | a name without a dot is rejected |
| `Upload.DotsAgree` | app.py:21 | names that agree up to case contain a dot together and have their last dot in the same place |
| `Upload.ExtensionsAgree` | app.py:21 | names that agree up to case have extensions that agree up to case |
| `Upload.CaseInsensitive` | app.py:20-21 | two names that agree up to letter case get the same verdict |
| `Upload.ExampleDoubleExtension` | app.py:21 | `a.exe.jpg` is accepted |
| `Upload.ExampleExecutable` | app.py:21 | `a.jpg.exe` is rejected |
| `Upload.ExampleCaseFolded` | app.py:21 | `X.PNG` and `x.JpEg` are accepted |
| `Upload.ExampleRejected` | app.py:21 | `photo.` (empty extension) and `png` (no dot) are rejected |
| `Handlers.CreatePost` | app.py:110-128 | with no session user the answer is 401 and the store is untouched; a missing content gives 500 with no write; otherwise one post is appended for the session user with the selected image |
| `Handlers.LikePost` | app.py:130-136 | with no session user the answer is 401 and the store is untouched; otherwise the toggle's action is returned, the session user's pair is liked afterwards exactly when that action is liked, no other pair's like rows change, and the returned count is the post's live like count, one more than before on a like and one less on an unlike; only the likes table changes |
| `Handlers.CommentPost` | app.py:138-146 | with no session user the answer is 401 and the store is untouched; a missing content gives 500 with no write; otherwise one comment is appended for the session user |
| `Handlers.UploadDecidesImage` | app.py:116-126 | a post created with an upload `base.ext` stores `posts/<saved name>` exactly when `ext` lower-cases to an allowed extension, and stores no image otherwise |
| `Handlers.LikeScenario` | app.py:110-136 | another user liking a fresh post gets liked with count 1, and liking it again gets unliked with count 0 |
| `Handlers.LikeBeforePost` | app.py:130-136 | a like on a post id that no post has yet is stored with count 1, and the post that later receives that id starts with one like |

## Left out

- SQLite plumbing is not modelled: connections, `init_db`'s DDL execution, commit and close. The tables are abstract sequences.
- Concurrency is not modelled. Every operation is one atomic step on the store, as if requests were served one at a time. The app serves requests on threads (app.py:14), and each call opens its own connection, so interleavings are possible in the real program. For example, `toggle_like` reads with a SELECT (database/models.py:327) and writes with a separate INSERT or DELETE (database/models.py:330-335). Two concurrent likes of an unliked pair both choose the INSERT, and the second fails on the UNIQUE constraint (database/models.py:66), so that request answers 500. Two concurrent unlikes both answer `unliked`. Such interleavings, and the "database is locked" errors, are outside the model.
- The `friendships`, `messages`, `video_calls`, `support_messages` and `analytics` tables are not modelled. They have no operation in the modelled core, and `analytics` holds floating-point values.
- `SupportMessage.create` / `get_by_ticket`, `SupportTicket.get_all` and `AdminUser.get_by_id` are not modelled. They lie outside the modelled core.
- `User.verify_password` and `AdminUser.verify_password` are not modelled. They rest on werkzeug's password hashing, whose code is not part of this model. For the same reason `Users.Create` receives the hash as opaque text.
- Flask is not modelled: routing, templates, `flash`, redirects, `get_current_user`, and the read-only routes. `secure_filename` and `file.save` are filesystem work; the saved name arrives as a parameter.
- The Socket.IO handlers and the browser scripts are not modelled. They are transport and UI, with no persisted state.
- Wall-clock time is not modelled. Python's `datetime.now()` (local time) and SQLite's `CURRENT_TIMESTAMP` / `datetime('now')` (UTC text) are both a single `now: nat` in seconds. Their time zones, and the text comparison of the two formats in `get_active_stories`, are not modelled.
- Stories.Create: `expires_hours` is a natural number. A fractional or negative `timedelta(hours=…)` is not modelled.
- The order of rows with equal timestamps is not modelled. SQLite leaves it unspecified; the model sorts stably, but no contract depends on it.
- Notifications.Create: `data` is the already-serialised JSON text. `json.dumps`, and the rule that a falsy payload is stored as NULL, are not modelled.
- Ids are unbounded naturals. SQLite's 64-bit rowid limit (and the "database or disk is full" error at it) is not modelled.
- Upload.Lower: only ASCII letters are lower-cased. Python's `str.lower` also folds other letters, but none of them lowers into the letters of `png`, `jpg`, `jpeg` or `gif`.
- Handlers.CreatePost: a non-string `content` in a form is not modelled. Form fields are always text.
- Handlers.CommentPost: a JSON list or object as `content` is not modelled. sqlite3 cannot bind it, so the request answers 500 and nothing is written. A JSON number is stored as text under the column's TEXT affinity; the model's `Some` text already covers that case.
- Notifications.Create: `type`, `title` and `message` are always text. A None for any of them would hit the NOT NULL constraint and raise an IntegrityError (database/models.py:177-179); that error path is not modelled.
- Support.Create: `subject` and `description` are always text. A None for either would hit the NOT NULL constraint and raise an IntegrityError (database/models.py:118-119); that error path is not modelled.
- Support.Create: `priority` is always text. A None passed explicitly is accepted and stored as NULL (database/models.py:121), and the model does not represent that NULL.
- Support.UpdateStatus: `status` is always text. A None is accepted and stored as NULL (database/models.py:120), and the model does not represent that NULL.
- Users.CreateAdmin: `role` and `permissions` are always text. A None for either is accepted and stored as NULL (database/models.py:107-108), and the model does not represent that NULL.
- Posts.ToggleTwiceRestoresPairs: when the pair starts liked, two toggles restore which pairs are liked and every count, but not the row itself. The re-inserted like gets a new id and timestamp, because AUTOINCREMENT never reuses an id. Only a pair that starts unliked gets its exact rows back (`Posts.ToggleTwiceRestoresRows`).
- Handlers.LikeScenario: requires that no like row names a post id above the post counter. Nothing in the code prevents such a row; `Handlers.LikeBeforePost` shows how one arises.

## Findings

| source | as written | input that shows it | evidently intended | confidence | as-written member | corrected member |
|---|---|---|---|---|---|---|
| database/models.py:285-318 | `SELECT p.*, …, (SELECT COUNT(*) FROM likes …) as likes_count` yields two columns named `likes_count`. `dict(sqlite3.Row)` looks each key up by name and gets the first, the stored `posts.likes_count`. That column is only ever written by its DEFAULT 0, so the feed and profile listings report 0 likes. | an empty store; user `ann` registers (id 1), creates post 1, and likes it: `toggle_like` returns count 1, but `get_feed(1)` and `get_by_user(1)` report `likes_count` 0 | each listed post reports the number of its like rows | not executed | `Posts.AsWrittenMissesLike` | `Posts.GetFeed` |
