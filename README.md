# Nikodex service layer in Dafny

Nikodex is the backend of a catalogue of "nikos": fan-made characters with abilities, owned
by users. It is a FastAPI application over a MySQL database. This project models its
service layer as imperative Dafny over one mutable store and proves what each operation
does to that store. The modelled services are:

- nikos, with the "Niko of the Day" rotation;
- abilities, comments and users;
- the banner, niko pictures, posts, submissions and blogs;
- the permission and validation decisions of the user and post endpoints.

**The store.** `Database.Store` is a class with one map per table: users, nikos,
abilities, the daily-pick history, comments, posts, blogs, submissions and submit-users. It
also holds the optional banner row and the set of file names in the image directory.

**The schema invariant.** `Schema.Consistent` collects the constraints the table
declarations impose:

- every row is stored under its primary key;
- niko ids are positive;
- every foreign key points at an existing row;
- usernames and external user ids are unique;
- the banner has id 1.

Every operation that changes the tables requires this invariant and re-establishes it. The
two picture operations `Images.UploadImage` and `Images.DeleteImage` change only the image
directory, which the invariant does not mention, and their contracts state that the tables
are left as they were.

**Transactions.** Each service call is one transaction. A call that returns before its
commit leaves the store exactly as it was, and every method says so in its contract. A
failure the database raises is an `Outcome.Raises` value:

- `.one()` finding nothing raises `NoResultFound`;
- `scalar_one_or_none` with two rows raises `MultipleResultsFound`;
- a foreign-key or unique violation at commit raises `IntegrityError`;
- a negative `OFFSET`/`LIMIT` raises `InvalidLimit`.

**Queries.** `Listing` describes what a `SELECT … ORDER BY … OFFSET … LIMIT` may return:

- every row exactly once;
- ordered by the key;
- rows that tie, or rows of a query without `ORDER BY`, come in any order.

**Time and outside effects.** Times are whole seconds. Randomness is a nondeterministic
choice (`:|`) whose existence is proved. The outside world becomes parameters:

- the clock, as `now`;
- uuids, as `identifier`;
- password hashes, as `hash`;
- image decoding, as `Upload.decodes`.

**Where the code and its evident intent differ.** The operations model the code as
written. For each such discrepancy, "## Findings" names a lemma that exhibits it and a
separate member that states and proves the intended behaviour.

## Model

| member | source | states |
|---|---|---|
| Schema.AuthorNameConsistent | common/models.py:42-50 | `author_name` is the free-text author when there is no owner. It is the owner's username when the owner exists; on a consistent store, the "Could not find author_name.." fallback never shows. |
| Schema.FreshNikoHasNoAbilities | common/models.py:52-57 | A niko id not in the table owns no abilities, so a new niko starts with an empty ability list. |
| Schema.DeleteNikoCascadeSound | common/models.py:68-81 | Deleting a niko removes its abilities and its history entry. It keeps every constraint and leaves the other nikos untouched. |
| Schema.DeleteUserCascadeSound | common/models.py:34-36 | Deleting a user removes what references it, keeps every constraint and leaves the other users untouched. That is its nikos (line 35) and, through them, their abilities and history entries; its submissions (142), its posts (155), and its comments and the comments on its posts (169-170). |
| Schema.DeleteUserCascadeKeeps | common/models.py:34-36 | The rows that survive a user's deletion keep their values in every table. An ability, history entry or comment survives exactly when the rows it refers to survive. |
| Schema.DeletePostCascadeSound | common/models.py:170 | Deleting a post removes exactly the comments on it and keeps every constraint. |
| Database.NextId | common/models.py:79 | An auto-increment key is positive and used by no row. |
| Listing.SelectPage | services/nikos.py:46-51 | `OFFSET`/`LIMIT` raise exactly when negative. Otherwise the result is the window at the offset, at most `limit` long, of one ordered listing of the table. |
| Listing.Select | services/nikos.py:36-39 | The result lists every row of the table exactly once, in key order. |
| Listing.OneOrNoneWhere | services/users.py:79-84 | `scalar_one_or_none` gives nothing for no match and the row for one match. It raises `MultipleResultsFound` for two or more. |
| Nikos.RecentlyAddedOrder | services/nikos.py:30-31 | `recently_added` lists ids in descending order. |
| Nikos.NameOrder | services/nikos.py:26-29 | `name_ascending`/`name_descending` list names in code-point order, forwards or backwards. |
| Nikos.OldestAddedAnyOrder | services/nikos.py:23-33 | `oldest_added` adds no `ORDER BY`: every arrangement is a valid answer. |
| Nikos.CodePointOrder | services/nikos.py:26-29 | Ordering names by their code points is the lexicographic string order. |
| Nikos.GetAll | services/nikos.py:36-39 | `get_all` returns every niko once, in the order of the requested sort. |
| Nikos.GetNikosPage | services/nikos.py:42-51 | A page below 1 gives None. Otherwise the result is at most `count` nikos, starting at offset `count*(page-1)` of the sorted listing. |
| Nikos.GetNikoById | services/nikos.py:119-127 | An unknown id raises `NoResultFound`; otherwise the result is the stored row. |
| Nikos.GetNotd | services/nikos.py:65-106 | One `get_notd` call is a step of the rotation (`Rotation.NotdStep`). Only the history changes, and the store stays consistent. |
| Nikos.DrawNotd | services/nikos.py:86-104 | The draw loop ends, wiping the history at most once. The drawn niko is new to the history, or the history held every niko and restarts from the new pick alone. |
| Rotation.RefreshAt | services/nikos.py:75-77 | The refresh deadline is the midnight after the pick: it is later than the pick, and at most one day later. |
| Rotation.RefreshAtMonotone | services/nikos.py:75-77 | Later picks have later or equal deadlines, and two times of one day share their deadline. |
| Rotation.HeadIsLatest | services/nikos.py:72-74 | The first row of `ORDER BY chosen_at DESC` is a latest pick. |
| Rotation.DeleteWhereAbove | services/nikos.py:96 | `DELETE … WHERE niko_id > bound` keeps exactly the entries with keys at most the bound. |
| Rotation.HistoryAfterDraw | services/nikos.py:96-104 | A draw keeps the store consistent. |
| Rotation.NotdNoneIff | services/nikos.py:67-70 | The answer is None exactly when there are no nikos, and then the history is untouched. |
| Rotation.NotdFresh | services/nikos.py:79-83 | Before the deadline of the latest pick, the call returns that pick with that deadline and leaves the history. |
| Rotation.NotdDraw | services/nikos.py:85-106 | After the deadline, the call returns a drawn niko. The history grows by that niko (no repeats), or is wiped and holds only it when every niko was already picked. |
| Rotation.NotdStepKeepsHistory | services/nikos.py:96-104 | A step never puts a missing niko into the history. |
| Rotation.SameNikoUntilMidnight | services/nikos.py:72-83 | After a draw at `now`, a call before the next midnight returns the same niko and leaves the history. |
| Rotation.EmptyHistoryFails | services/nikos.py:72-79 | With any non-empty catalogue and an empty history, the call raises `IndexError` instead of drawing, and the history stays empty. |
| Rotation.EmptyHistoryFailsExample | services/nikos.py:72-79 | A one-niko catalogue with an empty history is such a state, so the failure is reachable. |
| Rotation.DrawReturnsPastDeadline | services/nikos.py:106 | After a draw, the deadline returned has already passed. |
| Rotation.IntendedAlwaysAnswers | services/nikos.py:65-106 | In the corrected rotation, every call on a non-empty catalogue answers with a niko and a deadline still ahead. |
| Rotation.IntendedStepExists | services/nikos.py:65-106 | The corrected rotation can always take a step. |
| Nikos.InsertNiko | services/nikos.py:146-160 | Exactly one niko is added under a fresh id, with `doc` and `author` empty and the request's `author_id` unchecked. An unknown author is refused by the foreign key with no change. |
| Nikos.InsertedNikoHasNoAbilities | services/nikos.py:146-160 | The inserted niko owns no abilities. |
| Nikos.RequestedOwner | services/nikos.py:193-201 | A null or negative `author_id` clears ownership. A non-negative one names the owner. |
| Nikos.UpdateNiko | services/nikos.py:163-205 | The error order is: missing niko, then missing user. The edit is allowed iff the actor is admin or owns the niko. On allow, name, description, full_desc and is_blacklisted are overwritten and ownership is set or cleared. A denial changes nothing. An unknown requested author is answered "Specified author ID does not exist." and changes nothing. |
| Nikos.DeleteNiko | services/nikos.py:208-217 | The picture is removed first. An unknown id gives None. Otherwise the niko, its abilities and its history entry are removed and the niko is returned. |
| Abilities.InsertAbility | services/abilities.py:26-53 | A missing niko comes first. An admin may add to any niko; a non-admin is told an unowned niko "does not belong to a user". A non-owner gets "Unauthorized." with `err` False and nothing inserted. An allowed insert adds exactly one ability. |
| Abilities.UpdateAbility | services/abilities.py:56-86 | Outcomes in order: missing ability → None; missing user → "Who are you?". Allowed iff admin or owner of the parent niko; then name and niko_id are overwritten. A niko_id naming no niko is refused by the foreign key. A denial changes nothing. |
| Abilities.DeleteAbility | services/abilities.py:89-123 | A missing ability gives None; a missing user is an error. The ability is removed iff the actor is admin or owns its niko. Otherwise the answer is "Unauthorized." with no change. |
| Comments.WaitParts | services/comments.py:76 | The wait splits into whole minutes and 0-59 seconds that add back up to the remaining time. |
| Comments.Cooldown | services/comments.py:71-76 | The cool-down applies only to non-admins with a last comment, and rejects iff fewer than LIMIT·60 seconds have passed. The message reports the remaining minutes and seconds. |
| Comments.CooldownReportsRemaining | services/comments.py:72-76 | The reported minutes·60 + seconds is exactly the time left. |
| Comments.CooldownWindow | services/comments.py:71-78 | After commenting at `t`, a non-admin is held back exactly until `t` + LIMIT minutes. |
| Comments.CommentKeepsConsistent | services/comments.py:78-90 | Inserting a comment together with the author's bump keeps every constraint. |
| Comments.CreateComment | services/comments.py:59-92 | Checks run in this order: missing user/post, cool-down, length > 300. A refusal changes nothing, so the bump is lost on an over-long comment. Success adds exactly one comment with the given author, post, content and time, and sets `last_comment_at` to now. |
| Comments.DeleteComment | services/comments.py:41-56 | 404 for a missing comment. The comment is removed iff the actor is admin or its author; otherwise 401 with no change. |
| Users.AtMostOneNamed | common/models.py:110 | The unique constraint allows at most one user per username. |
| Users.GetUserByUsername | services/users.py:23-26 | Gives a user with that name, or raises `NoResultFound`. |
| Users.GetUserByName | services/users.py:29-32 | Gives the user with that name. It raises `NoResultFound` for none and `MultipleResultsFound` for several. |
| Users.GetUserByNameUnique | services/users.py:29-32 | On a consistent store, only the no-such-user error can occur. |
| Users.GetUserById | services/users.py:35-38 | An unknown id raises `NoResultFound`. |
| Users.UserSearch | services/users.py:41-45 | Every returned user's name contains the fragment, and at most `count` users are returned. The result is the window at `count*(page-1)` of an unordered listing of the matches. |
| Users.NewUser | services/users.py:65-70 | A new account is not admin, has no picture and has never commented. |
| Users.InsertUser | services/users.py:48-74 | Succeeds iff the name is unused and no field is empty. On success exactly one user is added; on refusal nothing changes. |
| Users.Patched | services/users.py:94-101 | Each of username, password hash and description changes only when a non-empty value is supplied. Everything else is kept. |
| Users.PatchedEmpty | services/users.py:94-101 | An all-empty change is the identity. |
| Users.PatchedIdempotent | services/users.py:94-101 | Applying the same change twice equals applying it once. |
| Users.UpdateUser | services/users.py:77-104 | Raises on two or more description matches. Returns False iff the name is taken and exactly one description matches, or the account is unknown; nothing changes then. A new name belonging to another user fails at commit with `IntegrityError`; no other exception is possible. It returns True iff none of these cases applies, and then exactly that account is patched. |
| Users.EmptyDescriptionMatchesEveryone | services/users.py:82-84 | An empty new description makes the `LIKE '%%'` query match every user. |
| Users.PartialChangeRaises | services/users.py:82-84 | With two or more users, a change whose description is empty has two or more description matches, so `update_user` raises `MultipleResultsFound`. |
| Users.IntendedPartialChangeNeverRaises | services/users.py:82-86 | Under the intended check, an empty description never raises; a non-empty one raises iff two distinct users' descriptions contain it. |
| Users.GetSubmitUser | services/users.py:107-110 | Gives None iff the external user has no record; otherwise gives their record. |
| Users.PostSubmitUser | services/users.py:113-131 | Afterwards exactly one record belongs to that external user and holds the request's values. Every other record is unchanged. |
| Users.UpsertKeepsConsistent | common/models.py:132 | The upsert keeps external user ids unique. |
| UserRouter.MatchesUsernamePattern | routers/users.py:140-142 | `re.match` on the pattern accepts exactly the 1-32 character `[A-Za-z0-9_]` names, optionally followed by one newline. |
| UserRouter.TrailingNewlineAccepted | routers/users.py:140-142 | A name with a trailing newline passes the check. |
| UserRouter.FullyMatchesUsernamePattern | routers/users.py:140 | The fully anchored pattern accepts exactly the 1-32 character `[A-Za-z0-9_]` names. |
| UserRouter.ValidateChange | routers/users.py:140-159 | A username that is not blank must match the pattern. The password may have at most 128 characters and the description at most 256. Each failure is a 400, checked in that order. |
| UserRouter.BlankUsernamePasses | routers/users.py:141 | A whitespace-only username skips the pattern check. |
| UserRouter.ChangeUser | routers/users.py:135-168 | Validation comes before the service, and a validation failure changes nothing. The service's False maps to 404. The answer is 204 iff the update succeeds, and then the account is patched. The service's exceptions propagate exactly when it raises them. |
| UserRouter.PostUser | routers/users.py:22-30 | Success iff `insert_user` accepts; otherwise 400 with no change. |
| UserRouter.MayDeleteUser | routers/users.py:119-125 | The `delete_user` guard admits exactly the admins, whatever the target. |
| UserRouter.MayPutProfilePicture | routers/users.py:79-83 | Allowed iff the actor is admin and the target is the actor. |
| UserRouter.MayDeleteProfilePicture | routers/users.py:92-96 | Allowed iff the actor is admin. |
| UserRouter.PutProfilePictureIsSelfAdminOnly | routers/users.py:79-83 | Nobody may change another user's picture, and only admins may change their own. |
| UserRouter.DeleteUser | routers/users.py:117-132 | 403 for non-admins and 404 for an unknown id. Otherwise the user and everything referencing it are removed. |
| Banners.GetBanner | services/banner.py:14-26 | With no row, the answer is id 1, empty title and content, dismissable, identifier "0". Otherwise it is the stored row unchanged. |
| Banners.BannerRow | services/banner.py:31-38 | The merged row has id 1, the request's title, content and flag, and the new identifier. |
| Banners.SetBanner | services/banner.py:29-41 | Afterwards there is exactly one banner, id 1, holding the request's values and a new identifier. Nothing else changes. |
| Banners.GetAfterSet | services/banner.py:14-41 | Reading after a write returns the written values, and the request's colour has no effect. |
| Images.AcceptedSizes | services/images.py:15 | Sizes from 1 byte to 2 MiB inclusive are accepted. |
| Images.CheckUpload | services/images.py:25-33 | Checks run in this order: type (present and `image/…`), then size (present, non-zero, ≤ 2 MiB), then decoding. Each outcome is characterised exactly. |
| Images.NikoImageName | services/images.py:36 | A niko's picture is `niko-{id}.png`. |
| Images.NikoImageNameInjective | services/images.py:36 | Different nikos never share a picture file. |
| Images.GetImage | services/images.py:61-70 | None for an unknown niko. Otherwise the niko's picture if the file exists, else the default picture. |
| Images.UploadImage | services/images.py:19-43 | True iff the niko exists and the upload passes the gate; then exactly `niko-{id}.png` is (re)written. Otherwise None with nothing written. |
| Images.DeleteImage | services/images.py:46-58 | True iff the niko exists and its file existed; the file is then gone. Otherwise None with nothing removed. |
| Images.StoredImage | services/posts.py:69-77 | A recorded picture is served iff its name is non-empty and the file exists; otherwise the default. |
| Images.SavedImageName | services/posts.py:94 | A saved upload is named `{uuid}.png`. |
| Posts.GetPostsPage | services/posts.py:35-45 | A page below 1 gives None. Otherwise the result is at most `count` posts, at offset `count*(page-1)` of an unordered listing. |
| Posts.GetPostById | services/posts.py:56-59 | Gives None iff the post is absent. |
| Posts.GetPostImage | services/posts.py:62-77 | None for a missing post. Otherwise the default picture when the name is empty or the file is missing. |
| Posts.GateMessage | services/posts.py:82-90 | An error is flagged exactly for a failed check. |
| Posts.GateMessagesDistinct | services/posts.py:82-90 | The three refusals have distinct messages. |
| Posts.InsertPost | services/posts.py:80-108 | Type, size and decode failures each get their own message and write nothing. Otherwise one file is saved under the fresh name. An unknown author is then refused by the foreign key, with the file left behind; a known author gets one new post pointing at the file. |
| PostRouter.DeletePost | routers/posts.py:76-87 | 404 for a missing post and 403 for a non-owner non-admin, with no change. Otherwise the post and its comments are removed. |
| PostRouter.RemovePost | routers/posts.py:83 | The post removal that `delete_post` calls: it removes an existing post with its comments and reports whether there was one. |
| Submissions.GetSubmissions | services/submissions.py:23-26 | Every submission once, newest first. |
| Submissions.NewestSubmissionsFirst | services/submissions.py:25 | `ORDER BY submit_date DESC` puts later dates first. |
| Submissions.GetSubmissionById | services/submissions.py:29-32 | An unknown id raises `NoResultFound`. |
| Submissions.GetSubmissionsByUserId | services/submissions.py:35-38 | Every submission of the user once, and nothing else. |
| Submissions.GetSubmissionImage | services/submissions.py:41-56 | None for a missing submission. Otherwise the default picture when the name is empty or the file is missing. |
| Submissions.InsertSubmission | services/submissions.py:59-88 | False with nothing written when a check fails. Otherwise one file and one submission carrying the request's fields, the user, the time and `{uuid}.png`; an unknown user is refused by the foreign key after the file is written. |
| Submissions.DeleteSubmission | services/submissions.py:91-103 | An unknown id raises. Otherwise the picture file is removed when named and present, then the row. |
| Blogs.GetBlogs | services/blogs.py:16-19 | Every blog once, newest first. |
| Blogs.NewestBlogsFirst | services/blogs.py:18 | `ORDER BY post_datetime DESC` puts later dates first. |
| Blogs.GetBlogById | services/blogs.py:22-25 | An unknown id raises `NoResultFound`. |
| Blogs.PostBlog | services/blogs.py:28-38 | Exactly one blog is added, stamped with the current time. |
| Blogs.Edited | services/blogs.py:46-48 | Title, content and author are replaced, and id and date are kept. |
| Blogs.EditedLastWins | services/blogs.py:46-48 | Of two edits, the last one wins. |
| Blogs.UpdateBlog | services/blogs.py:41-50 | None with no change for a missing id. Otherwise exactly that blog is edited. |
| Blogs.DeleteBlog | services/blogs.py:53-61 | A missing id raises, so the None branch is unreachable. An existing blog is removed and returned. |
| Text.ParseNatToDecimal | services/images.py:36 | Decimal rendering of ids round-trips. |
| Text.DecimalInjective | services/images.py:36 | Different ids render differently. |
| Text.StripEmptyIff | routers/users.py:141 | `strip()` is empty exactly for whitespace-only strings (Python's `isspace`). |
| Text.LikeContains | services/users.py:43 | `LIKE '%p%'` holds exactly when the string contains `p`, for a pattern without wildcards. |

## Left out

- Nikos.GetNotd, Nikos.DrawNotd: in the source, the wipe is committed inside the loop before the new pick. The model treats the call as one step. Concurrent callers (two simultaneous refreshes) are not modelled.
- The clock is one value `now` per call. The database's `func.now()` (the pick's `chosen_at`) and Python's `datetime.now()` are taken as the same clock. Time zones and daylight saving are not modelled; a day is 86400 seconds.
- Floating-point minutes in the comment cool-down: elapsed time is whole seconds, so `ceil` of the seconds left is exact.
- `COMMENT_RATE_LIMIT` comes from the environment and is the parameter `limit`.
- `uuid4`, bcrypt and image decoding (PIL) are parameters: `identifier`, `hash` and `Upload.decodes`. A uuid is not proved fresh.
- `func.random()` in the draw is a nondeterministic choice among the eligible nikos.
- Nikos.GetNikosPage, Posts.GetPostsPage, Users.UserSearch: a negative `LIMIT`/`OFFSET` is modelled as the error `InvalidLimit`. MySQL's exact behaviour there is outside the model.
- Auto-increment is modelled as any unused positive key, not as the next counter value.
- Collation: comparisons and `ORDER BY name` use exact code points. MySQL's default collation is case-insensitive.
- `LIKE` is modelled with `%` and `_`; the backslash escape is not modelled.
- Column lengths (`String(255)` etc.) are not enforced.
- `get_random_niko`, `get_by_name`, `get_niko_by_userid`, the counts, `get_posts`, `get_post_userid` and the comment listings: read-only queries outside the modelled core.
- The `update_profile_picture`/`delete_profile_picture` services are called by the router but not defined in services/users.py, so only the router guards are modelled.
- services/users.py does not define `delete_user` and services/posts.py does not define `delete_post`, although the routers call them. UserRouter.DeleteUser and PostRouter.RemovePost model them as removals of the row with the cascades the foreign keys declare. Their truthy answer is taken to mean "a row was removed"; a post's picture file is not removed.
- The post–niko association table (common/models.py:177-182) and its cascades are not modelled.
- `os.remove` failing for a reason other than a missing file is not modelled.
- A rollback after an exception restores the database but not the image directory: files written before an `IntegrityError` stay, as the contracts of Posts.InsertPost and Submissions.InsertSubmission say.
- Images.AcceptedSizes: a negative size from the web layer is excluded from the statement; the gate itself treats it like any size ≤ 2 MiB.
- HTTP plumbing (FastAPI dependency injection, JWT decoding of the current user) is replaced by the acting user as a parameter.

## Findings

| source | as written | input that shows it | evidently intended | confidence | as-written member | corrected member |
|---|---|---|---|---|---|---|
| services/nikos.py:72-79 | The latest pick is indexed (`[0]`) before the length test that should guard it. | One niko and an empty history, e.g. a fresh database | Draw the first pick | high, not executed | Rotation.EmptyHistoryFails | Rotation.IntendedAlwaysAnswers |
| services/nikos.py:106 | After a draw, the returned deadline is computed from the previous pick. | A history whose latest pick is from yesterday | Return the midnight after the new pick | high, not executed | Rotation.DrawReturnsPastDeadline | Rotation.IntendedAlwaysAnswers |
| routers/users.py:140-142 | `re.match` with `$` also accepts a final newline. | New username `"nikodex\n"` | Accept only 1-32 characters from `[A-Za-z0-9_]` | high, not executed | UserRouter.TrailingNewlineAccepted | UserRouter.FullyMatchesUsernamePattern |
| services/users.py:82-84 | The description query runs even for an empty new description, whose pattern `%%` matches every user, and `scalar_one_or_none` then raises. | Two users and a change of username or password only (empty description) | An empty description is not looked up, as the later `len(...) > 0` tests treat it as "keep" | medium, not executed | Users.PartialChangeRaises | Users.IntendedPartialChangeNeverRaises |
