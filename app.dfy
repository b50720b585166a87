/**
 * The request handlers that change the store: a `MiniFeed` holds the two
 * tables, the AUTOINCREMENT counters and the session's `user_id` slot, and
 * each handler's POST branch is a method that reads the logged-in user from
 * the session and then inserts or updates rows.
 */
module App {
  import opened Wrappers
  import opened Text
  import opened Uploads
  import opened Tables
  import opened Accounts

  /** A handler's answer: its result, or the error it flashes instead. */
  datatype Outcome<T> = Ok(value: T) | Err(error: Error)

  /** The file name a form's upload is stored under: `stored` when a file
      was sent whose name has a last extension in the allowed set (in any
      case), otherwise `keep`. */
  function UploadName(upload: Option<string>, stored: string, keep: Option<string>): (r: Option<string>)
    ensures r == if upload.Some? && (exists i :: 0 <= i < |upload.value| && upload.value[i] == '.'
                                       && '.' !in upload.value[i + 1..]
                                       && Lower(upload.value[i + 1..]) in AllowedExtensions)
                 then Some(stored) else keep
  {
    if Accepted(upload) then Some(stored) else keep
  }

  /** The row `create_post` inserts for `author`: stripped content, the
      stored image if any, and the column default of 0 likes. */
  function NewPost(id: nat, author: User, content: string, image: Option<string>, now: nat): (r: Post)
    ensures r.userId == author.id && r.username == author.username && LikeCount(r) == 0
    ensures |r.content| <= |content|
    ensures r.content == [] <==> AllSpace(content)
    ensures r.content == [] || (!IsSpace(r.content[0]) && !IsSpace(r.content[|r.content| - 1]))
  {
    StripEmptyIff(content);
    Post(id, author.id, author.username, Strip(content), image, Some(0), now)
  }

  /** The row `repost` inserts for `author`: the original's content behind a
      "Repost: " prefix and the original's image, with 0 likes. */
  function RepostOf(id: nat, author: User, original: Post, now: nat): (r: Post)
    ensures r.userId == author.id && r.username == author.username && LikeCount(r) == 0
    ensures |r.content| == 8 + |original.content|
    ensures r.content[..8] == "Repost: " && r.content[8..] == original.content
    ensures r.imageFilename == original.imageFilename
  {
    Post(id, author.id, author.username, "Repost: " + original.content, original.imageFilename, Some(0), now)
  }

  class MiniFeed {
    var users: seq<User>
    var posts: seq<Post>
    /** The ids AUTOINCREMENT hands out next. */
    var nextUserId: nat
    var nextPostId: nat
    /** `session["user_id"]`, when present. */
    var session: Option<nat>
    /** The password hasher, given a salt, and its checker. */
    const hash: (string, string) -> string
    const check: (string, string) -> bool

    /** The invariants that AUTOINCREMENT, the UNIQUE username and the
        handlers keep together: increasing ids below each counter, unique
        usernames, and every post naming an existing user under that user's
        username. */
    ghost predicate Valid(): (r: bool)
      reads this
      ensures r ==> |users| < nextUserId && |posts| < nextPostId
    {
      && UsersValid(users, nextUserId)
      && PostsValid(posts, nextPostId, users)
    }

    /** `init_db()` on an empty database, and a fresh session. */
    constructor (hash: (string, string) -> string, check: (string, string) -> bool)
      ensures Valid()
      ensures users == [] && posts == [] && session == None
      ensures nextUserId == 1 && nextPostId == 1
      ensures this.hash == hash && this.check == check
    {
      users, posts := [], [];
      nextUserId, nextPostId := 1, 1;
      session := None;
      this.hash, this.check := hash, check;
    }

    /** `signup` (POST): refuses an empty username or password and a taken
        username; otherwise inserts the new user with the salted hash of
        the password and a fresh id above every id handed out before. */
    method Signup(username: string, password: string, fullname: string, salt: string, now: nat)
      returns (r: Outcome<nat>)
      requires Valid()
      modifies this`users, this`nextUserId
      ensures Valid()
      ensures SignupError(old(users), username, password).Some? ==>
        && r == Err(SignupError(old(users), username, password).value)
        && users == old(users) && nextUserId == old(nextUserId)
      ensures SignupError(old(users), username, password).None? ==>
        && r == Ok(old(nextUserId))
        && users == old(users) + [NewUser(old(nextUserId), username, hash(salt, password), fullname, now)]
        && nextUserId == old(nextUserId) + 1
      ensures r.Ok? ==> forall i :: 0 <= i < |old(users)| ==> old(users)[i].id < r.value
    {
      match SignupError(users, username, password)
      case Some(e) =>
        r := Err(e);
      case None =>
        var id := nextUserId;
        var u := NewUser(id, username, hash(salt, password), fullname, now);
        SignupKeepsNamesUnique(users, username, password, id, hash(salt, password), fullname, now);
        forall p | p in posts ensures Attributed(users + [u], p) {
          FindFirstAppend(users, u, p.userId, UserId);
        }
        users := users + [u];
        nextUserId := nextUserId + 1;
        r := Ok(id);
    }

    /** `login` (POST): on matching credentials the session holds the
        user's id; otherwise the session is left as it was. */
    method Login(username: string, password: string) returns (r: Outcome<nat>)
      requires Valid()
      modifies this`session
      ensures Valid()
      ensures Authenticate(users, check, username, password).Some? ==>
        && r == Ok(Authenticate(users, check, username, password).value)
        && session == Some(r.value)
      ensures Authenticate(users, check, username, password).None? ==>
        r == Err(BadCredentials) && session == old(session)
    {
      match Authenticate(users, check, username, password)
      case Some(id) =>
        session := Some(id);
        r := Ok(id);
      case None =>
        r := Err(BadCredentials);
    }

    /** `logout`: the session no longer holds a user id. */
    method Logout()
      requires Valid()
      modifies this`session
      ensures Valid() && session == None
    {
      session := None;
    }

    /** `create_post` (POST): without a logged-in user nothing changes;
        otherwise exactly one post by that user is appended. */
    method CreatePost(content: string, upload: Option<string>, storedName: string, now: nat)
      returns (r: Outcome<nat>)
      requires Valid()
      modifies this`posts, this`nextPostId
      ensures Valid()
      ensures CurrentUser(users, session).None? ==>
        r == Err(LoginRequired) && posts == old(posts) && nextPostId == old(nextPostId)
      ensures CurrentUser(users, session).Some? ==>
        && r == Ok(old(nextPostId))
        && posts == old(posts) + [NewPost(old(nextPostId), CurrentUser(users, session).value, content,
                                          UploadName(upload, storedName, None), now)]
        && nextPostId == old(nextPostId) + 1
    {
      match CurrentUser(users, session)
      case None =>
        r := Err(LoginRequired);
      case Some(u) =>
        var id := nextPostId;
        InsertPost(NewPost(id, u, content, UploadName(upload, storedName, None), now));
        r := Ok(id);
    }

    /** `INSERT INTO posts`: appends a row that carries the next id and names
        an existing author. */
    method InsertPost(p: Post)
      requires Valid() && p.id == nextPostId && Attributed(users, p)
      modifies this`posts, this`nextPostId
      ensures Valid()
      ensures posts == old(posts) + [p] && nextPostId == old(nextPostId) + 1
    {
      AppendPostValid(posts, nextPostId, users, p);
      posts := posts + [p];
      nextPostId := nextPostId + 1;
    }

    /** `like`: without a logged-in user nothing changes; otherwise the post
        with that id, if there is one, gains one like. */
    method Like(postId: nat) returns (r: Outcome<()>)
      requires Valid()
      modifies this`posts
      ensures Valid()
      ensures CurrentUser(users, session).None? ==> r == Err(LoginRequired) && posts == old(posts)
      ensures CurrentUser(users, session).Some? ==> r == Ok(()) && posts == BumpLikes(old(posts), postId)
    {
      if CurrentUser(users, session).None? {
        r := Err(LoginRequired);
      } else {
        BumpLikesValid(posts, nextPostId, users, postId);
        posts := BumpLikes(posts, postId);
        r := Ok(());
      }
    }

    /** `repost`: without a logged-in user, or when no post has that id,
        nothing changes; otherwise one post by the logged-in user is
        appended, quoting the original's content and keeping its image. */
    method Repost(postId: nat, now: nat) returns (r: Outcome<nat>)
      requires Valid()
      modifies this`posts, this`nextPostId
      ensures Valid()
      ensures CurrentUser(users, session).None? ==>
        r == Err(LoginRequired) && posts == old(posts) && nextPostId == old(nextPostId)
      ensures CurrentUser(users, session).Some? && FindPost(old(posts), postId).None? ==>
        r == Err(PostNotFound) && posts == old(posts) && nextPostId == old(nextPostId)
      ensures CurrentUser(users, session).Some? && FindPost(old(posts), postId).Some? ==>
        && r == Ok(old(nextPostId))
        && posts == old(posts) + [RepostOf(old(nextPostId), CurrentUser(users, session).value,
                                           FindPost(old(posts), postId).value, now)]
        && nextPostId == old(nextPostId) + 1
    {
      match CurrentUser(users, session)
      case None =>
        r := Err(LoginRequired);
      case Some(u) =>
        match FindPost(posts, postId)
        case None =>
          r := Err(PostNotFound);
        case Some(original) =>
          var id := nextPostId;
          InsertPost(RepostOf(id, u, original, now));
          r := Ok(id);
    }

    /** `edit_profile` (POST): without a logged-in user nothing changes;
        otherwise that user's full name and bio are replaced, and the
        picture too when an acceptable file is uploaded. */
    method EditProfile(fullname: string, bio: string, upload: Option<string>, storedName: string)
      returns (r: Outcome<()>)
      requires Valid()
      modifies this`users
      ensures Valid()
      ensures CurrentUser(old(users), session).None? ==> r == Err(LoginRequired) && users == old(users)
      ensures CurrentUser(old(users), session).Some? ==>
        var u := CurrentUser(old(users), session).value;
        r == Ok(()) && users == SetProfile(old(users), u.id, fullname, bio, UploadName(upload, storedName, u.profilePic))
    {
      match CurrentUser(users, session)
      case None =>
        r := Err(LoginRequired);
      case Some(u) =>
        var pic := UploadName(upload, storedName, u.profilePic);
        var updated := SetProfile(users, u.id, fullname, bio, pic);
        SetProfileUsersValid(users, nextUserId, u.id, fullname, bio, pic);
        SetProfilePostsValid(users, posts, nextPostId, u.id, fullname, bio, pic);
        users := updated;
        r := Ok(());
    }
  }
}
