# Mini-feed store, modelled in Dafny

`app.py` is a small Flask application: people sign up, log in, post short texts
with an optional image, like and repost posts, edit their profile, and read a
global feed, a per-user profile page and an admin dashboard. Everything it
keeps lives in two SQLite tables, `users` and `posts`, plus a `user_id` slot in
the signed session cookie.

This project models that store and its request handlers once HTTP and SQL are
taken away:

- `wrappers.dfy`: `Option`, used for nullable columns, the session slot and
  lookups.
- `text.dfy`: the Python string operations the handlers rely on, on ASCII:
  `str.strip()`, `str.lower()` and the split point of `str.rsplit(".", 1)`.
- `uploads.dfy`: `allowed_file` and the `file and file.filename and ...`
  guard in front of every upload.
- `ordering.dfy`: `ORDER BY <column> DESC` as a stable insertion sort on a
  natural-number key.
- `tables.dfy`:
  - the two tables as sequences of rows in insertion order;
  - the `SELECT ... WHERE` lookups, `current_user()`, and the two `UPDATE`
    statements;
  - the invariants that AUTOINCREMENT, the UNIQUE username and the handlers
    keep together.
- `accounts.dfy`: the validation in `signup`, the credential check in
  `login`, and how the two fit together.
- `views.dfy`: the read-only pages `feed`, `profile` and `admin`.
- `app.dfy`: class `MiniFeed`, which holds the tables, the id counters, the
  session slot and the password hasher. Each handler that changes state is a
  method with a `modifies` clause. Each method keeps the invariant `Valid()`
  and states the new tables and session in terms of the old ones.

What `app.py` does that a reader might not expect, and the model keeps:

- `create_post` accepts empty content with no image.
- `like` on an unknown id changes nothing and reports nothing.
- A repost of an existing post inserts a new post; no repost counter exists.
- There is no comments table.
- `create_post`, `like`, `repost` and `edit_profile` require a logged-in user (app.py:106-109, 189-191, 211-214, 222-225); `signup`, `login`, `feed` and `profile` do not.

## Model

| member | source | states |
|---|---|---|
| Uploads.AllowedFile | app.py:71-72 | `allowed_file`: a name is allowed exactly when it has a "." with no later "." whose following text, lower-cased, is png, jpg, jpeg or gif |
| Uploads.AllowedFileAt | app.py:72 | the last "." of the name is the split point: the verdict is whether the text after it, lower-cased, is an allowed extension |
| Uploads.AcceptsAllowedExtension | app.py:71-72 | `stem + "." + ext` is accepted whenever `ext` has no "." and is an allowed extension in any case, whatever the stem |
| Uploads.RejectsOtherExtension | app.py:71-72 | `stem + "." + ext` is refused whenever the last extension is not allowed, even if the stem ends in an allowed one |
| Uploads.DoubleExtensionRefused | app.py:71-72 | "a.png.exe" is refused |
| Uploads.UpperCaseExtensionAccepted | app.py:71-72 | "x.tar.PNG" is accepted |
| Uploads.RejectsBareExtension | app.py:72 | a name without "." ("png") is refused |
| Uploads.AllowedFileIgnoresCase | app.py:72 | lower-casing a file name never changes the verdict |
| Uploads.Accepted | app.py:115 | the guard `file and file.filename and allowed_file(...)` holds exactly when a file was sent and its name is allowed; the non-empty test adds nothing, since an allowed name holds a "." |
| Text.Strip | app.py:133 | the stripped text is no longer than the input and neither starts nor ends with whitespace |
| Text.StripSlice | app.py:133 | the stripped text is the slice of the input that follows the leading whitespace, and everything cut off on either side is whitespace |
| Text.StripEmptyIff | app.py:133-136 | stripping leaves nothing exactly when the input is all whitespace |
| Text.StripIdempotent | app.py:157 | stripping a stripped username changes nothing |
| Text.Lower | app.py:72 | lower-casing keeps the length |
| Text.LowerLower | app.py:72 | lower-casing is idempotent and leaves every "." where it was |
| Text.LastIndexOf | app.py:72 | finds the last occurrence of the separator, after which there is no other; nothing exactly when the separator does not occur |
| Tables.FindFirst | app.py:160-161 | `SELECT * ... WHERE <column> = ?` (also app.py:77-78, 179-180 and 227): the lookup finds a row with that key, or nothing exactly when no row has it |
| Tables.FindFirstAppend | app.py:143-144 | after a row is inserted, a lookup returns what it returned before, or the new row if only it has that key |
| Tables.FindFirstAt | app.py:46-47 | when no two rows share a key (PRIMARY KEY id, UNIQUE username), looking up a row's key finds that very row |
| Tables.FindUserByNameUnique | app.py:47 | with unique usernames, looking up any user's username finds that user |
| Tables.CurrentUser | app.py:74-79 | a user is returned only when the session holds that user's id; nothing exactly when the session is empty or names no existing row |
| Tables.LikeCount | app.py:216 | `COALESCE(likes, 0)`: the stored count, or 0 for NULL |
| Tables.BumpLikes | app.py:216 | the like update keeps the number of posts |
| Tables.BumpLikesAt | app.py:216 | a post with that id gains exactly one like (a NULL count reads as 0) and changes in nothing else; any other post is untouched |
| Tables.LikeUnknownIsNoop | app.py:216 | a like on an id no post has leaves the table unchanged |
| Tables.LikesAccumulate | app.py:216 | after n likes of an id, each post with that id has exactly n more likes, every other count is unchanged, and no other field of any row changes |
| Tables.SetProfile | app.py:202-203 | the profile update keeps the number of users |
| Tables.SetProfileAt | app.py:202-203 | the row with that id takes the new fullname, bio and picture and keeps its id, username, password and creation time; other rows are untouched |
| Tables.SetProfileKeepsNames | app.py:202-203 | after a profile update every id lookup still finds a row, with the same username |
| Tables.UsersValid | app.py:46-47 | the users invariant (counter from 1, ids increasing and below the counter, usernames unique) makes ids a key and keeps the counter ahead of the number of rows |
| Tables.PostsValid | app.py:58-65 | the posts invariant (counter from 1, ids increasing and below the counter, every post naming an existing user under its username) makes ids a key and keeps the counter ahead of the number of rows |
| Tables.FewerRowsThanNextId | app.py:46 | rows with increasing ids in [1, next) are fewer than next |
| Tables.SetProfileUsersValid | app.py:202-203 | a profile update keeps user ids increasing and in range, and usernames unique |
| Tables.SetProfilePostsValid | app.py:202-203 | after a profile update every post still names an existing author with its username snapshot |
| Tables.AppendPostValid | app.py:120-122 | inserting a post with the next id and an existing author keeps post ids increasing and every post attributed |
| Tables.BumpLikesValid | app.py:216 | a like keeps post ids and authorship intact |
| Accounts.SignupError | app.py:133-150 | signup is refused as invalid exactly when the stripped username or the password is empty, as taken exactly when it is valid and the stripped name is already in the table, and otherwise accepted |
| Accounts.NewUser | app.py:143-144 | the inserted user has the given id and hash, NULL bio and picture, and a username with no surrounding whitespace, no longer than the input, empty exactly when the input is all whitespace |
| Accounts.Authenticate | app.py:157-162 | a user id is returned only for a row with the stripped username whose stored hash checks against the password; with unique usernames every such row's id is returned |
| Accounts.SignupKeepsNamesUnique | app.py:143-150 | an accepted signup keeps usernames unique |
| Accounts.SignupThenLogin | app.py:133-163 | after an accepted signup, a login with the same password and a username that strips to the same name returns the new id, provided the hash checks |
| Accounts.SecondSignupTaken | app.py:143-150 | after an accepted signup, any signup whose username strips to the same name, with a non-empty password, is refused as taken |
| Ordering.Insert | app.py:99 | inserting adds one row and leaves either the new row or the old first row in front |
| Ordering.InsertPermutes | app.py:99 | inserting adds the new row and loses none |
| Ordering.InsertSorted | app.py:99 | inserting into a newest-first sequence keeps it newest first |
| Ordering.SortBy | app.py:99 | ordering keeps the number of rows |
| Ordering.SortByOrders | app.py:99 | ordering returns a permutation of the rows with non-increasing keys |
| Ordering.SortByCons | app.py:99 | ordering a sequence inserts its first row into the ordered rest |
| Ordering.LargestKeyFirst | app.py:99 | in an ordered sequence, a row whose key is larger than every other key comes first |
| Views.FeedView | app.py:99 | the feed is a permutation of all posts, newest first |
| Views.ByAuthor | app.py:184 | filtering by username never adds rows |
| Views.ByAuthorMembers | app.py:184 | the filter keeps exactly the posts whose username snapshot is the name |
| Views.ByAuthorInsert | app.py:184 | filtering by author after inserting into an ordered sequence gives the same as inserting into the filtered sequence |
| Views.ProfileOrderMatchesFeed | app.py:184 | ordering one author's posts gives the same sequence as filtering that author's posts from the ordered feed |
| Views.ProfileView | app.py:179-184 | nothing exactly when no user has the name; otherwise that user's row and exactly the posts with that username snapshot, newest first, in feed order |
| Views.AdminView | app.py:239-246 | the dashboard is produced exactly when the logged-in user's username is "admin", and then holds all users and all posts as permutations, newest first |
| Views.NewestPostLeadsFeed | app.py:99 | a post newer than every other post heads the feed |
| App.UploadName | app.py:114-116 | the stored name is used exactly when a file was sent whose name has a "." with no later "." followed by png, jpg, jpeg or gif in any case; otherwise the fallback (no image, or the old picture at app.py:196) is kept |
| App.NewPost | app.py:120-122 | the inserted post carries the author's id and username and 0 likes, and its content has no surrounding whitespace, is no longer than the input, and is empty exactly when the input is all whitespace |
| App.RepostOf | app.py:231-232 | the inserted repost carries the reposter's id and username, 0 likes, the original's image, and content that is "Repost: " followed by the original's content |
| App.MiniFeed.Valid | app.py:44-67 | both table invariants hold, so each counter is ahead of its table's row count |
| App.MiniFeed.constructor | app.py:40-67 | the store starts with empty tables, both counters at 1 and an empty session |
| App.MiniFeed.Signup | app.py:133-150 | a refused signup changes nothing and reports why; an accepted one appends exactly one user with the next id (above every earlier id), the stripped username, the salted hash of the password, the given fullname, no bio and no picture |
| App.MiniFeed.Login | app.py:157-167 | the session takes the user's id exactly when the credentials check; otherwise the session is unchanged and the error is reported |
| App.MiniFeed.Logout | app.py:172 | the session is empty afterwards |
| App.MiniFeed.CreatePost | app.py:106-126 | without a logged-in user nothing changes; otherwise exactly one post is appended with the user's id and username, the stripped content (possibly empty), the stored image or none, and 0 likes |
| App.MiniFeed.InsertPost | app.py:120-123 | appends the row with the next id and moves the counter, keeping the tables valid |
| App.MiniFeed.Like | app.py:211-216 | without a logged-in user nothing changes; otherwise the posts become the like update of the old posts |
| App.MiniFeed.Repost | app.py:222-233 | without a logged-in user, or for an unknown id, nothing changes; otherwise exactly one post is appended for the reposter, with "Repost: " before the original's content and the original's image, and the original is untouched |
| App.MiniFeed.EditProfile | app.py:189-203 | without a logged-in user nothing changes; otherwise only that user's fullname, bio and picture change, and the old picture stays when no acceptable file is uploaded |

## Left out

- HTTP and presentation are not modelled:
  - Flask routing;
  - the GET branches that only render a template;
  - `render_template`, `flash`, `redirect`, `url_for` and `request.referrer`;
  - the `index`, `home` and `uploaded_file` routes.

  Each handler's redirect-with-message becomes an `Error` value.
- SQLite connection handling (`get_db`, `close_connection`, `commit`) is not modelled. The tables are in-memory sequences in rowid order.
- Signup checks the UNIQUE constraint with a lookup before inserting. The code instead lets the INSERT fail with `IntegrityError`. Both reach the same outcome.
- werkzeug's `generate_password_hash` and `check_password_hash` are foreign calls. They are the class's `hash` and `check` functions, and the random salt becomes a parameter.
  - App.MiniFeed.Signup: "the raw password is never stored" holds only as far as `hash` differs from the identity, which the model cannot see.
- `secure_filename`, `file.save` and the upload folder are filesystem I/O. The upload names are parameters of the handlers too: the one built from the clock (app.py:116) and the one built from the user id (app.py:198).
- `CURRENT_TIMESTAMP` is a clock. The creation time is a natural number supplied by the caller.
- `ORDER BY created_at DESC` leaves the order of rows with equal timestamps unspecified. The model keeps such rows in table order.
- Two effects of concurrency are not modelled: the atomicity of the like update under concurrent requests, and interleaving between requests. The model runs one handler at a time.
- `.strip()` and `.lower()` are modelled on ASCII only. Whitespace is code points 9-13 and 28-32. Unicode whitespace and case mapping are not modelled.
- Startup and configuration (`app.run`, `SECRET_KEY`, the port, `os.makedirs`) are not modelled.
- SQLite stores ids and like counts as 64-bit integers. The model's ids and counts are unbounded naturals. It does not model AUTOINCREMENT failing with SQLITE_FULL at the largest id, nor `likes + 1` overflowing into a REAL.
