/**
 * The two tables of the store, `users` and `posts`, each held as a sequence
 * of rows in insertion (rowid) order; the lookups and row updates the
 * handlers issue as SQL; and the invariants that the schema (AUTOINCREMENT
 * ids, UNIQUE usernames) and the handlers together keep.
 */
module Tables {
  import opened Wrappers

  /** A row of `users`. `password` holds what the password hasher returned. */
  datatype User = User(
    id: nat,
    username: string,
    password: string,
    fullname: string,
    bio: Option<string>,
    profilePic: Option<string>,
    createdAt: nat)

  /** A row of `posts`. `username` is a snapshot of the author's username
      taken when the row was inserted; `likes` may be NULL. */
  datatype Post = Post(
    id: nat,
    userId: nat,
    username: string,
    content: string,
    imageFilename: Option<string>,
    likes: Option<nat>,
    createdAt: nat)

  /** `COALESCE(likes, 0)`: a NULL count reads as 0. */
  function LikeCount(p: Post): (n: nat)
    ensures p.likes.Some? ==> n == p.likes.value
    ensures p.likes.None? ==> n == 0
  {
    match p.likes
    case Some(n) => n
    case None => 0
  }

  /** `SELECT * FROM <table> WHERE <column> = ?`, first row in table order:
      `key` reads the column off a row. */
  function FindFirst<T, K(==)>(rows: seq<T>, k: K, key: T -> K): (r: Option<T>)
    ensures r.None? <==> forall i :: 0 <= i < |rows| ==> key(rows[i]) != k
    ensures r.Some? ==> r.value in rows && key(r.value) == k
  {
    if rows == [] then None
    else if key(rows[0]) == k then Some(rows[0])
    else FindFirst(rows[1..], k, key)
  }

  function UserId(u: User): nat { u.id }

  function UserName(u: User): string { u.username }

  function PostId(p: Post): nat { p.id }

  /** `SELECT * FROM users WHERE id = ?` */
  function FindUserById(users: seq<User>, id: nat): Option<User> {
    FindFirst(users, id, UserId)
  }

  /** `SELECT * FROM users WHERE username = ?` */
  function FindUserByName(users: seq<User>, name: string): Option<User> {
    FindFirst(users, name, UserName)
  }

  /** `SELECT * FROM posts WHERE id = ?` */
  function FindPost(posts: seq<Post>, id: nat): Option<Post> {
    FindFirst(posts, id, PostId)
  }

  /** `current_user()`: the row of the user id held in the session, if the
      session holds one and that row exists. */
  function CurrentUser(users: seq<User>, session: Option<nat>): (r: Option<User>)
    ensures r.Some? ==> session == Some(r.value.id) && r.value in users
    ensures r.None? <==> session.None? || forall i :: 0 <= i < |users| ==> users[i].id != session.value
  {
    match session
    case None => None
    case Some(uid) => FindUserById(users, uid)
  }

  /** `UPDATE posts SET likes = COALESCE(likes, 0) + 1 WHERE id = ?`, row by
      row; `BumpLikesAt` states its effect on each row. */
  function BumpLikes(posts: seq<Post>, id: nat): (r: seq<Post>)
    ensures |r| == |posts|
  {
    if posts == [] then []
    else
      var p := posts[0];
      [if p.id == id then p.(likes := Some(LikeCount(p) + 1)) else p] + BumpLikes(posts[1..], id)
  }

  /** The matching rows gain exactly one like and change in nothing else;
      every other row is untouched. */
  lemma {:induction false} BumpLikesAt(posts: seq<Post>, id: nat, i: nat)
    requires i < |posts|
    ensures posts[i].id != id ==> BumpLikes(posts, id)[i] == posts[i]
    ensures posts[i].id == id ==>
      && LikeCount(BumpLikes(posts, id)[i]) == LikeCount(posts[i]) + 1
      && BumpLikes(posts, id)[i].(likes := posts[i].likes) == posts[i]
  {
    if i > 0 {
      BumpLikesAt(posts[1..], id, i - 1);
    }
  }

  /** `UPDATE users SET fullname = ?, bio = ?, profile_pic = ? WHERE id = ?`,
      row by row; `SetProfileAt` states its effect on each row. */
  function SetProfile(users: seq<User>, id: nat, fullname: string, bio: string, pic: Option<string>): (r: seq<User>)
    ensures |r| == |users|
  {
    if users == [] then []
    else
      var u := users[0];
      [if u.id == id then u.(fullname := fullname, bio := Some(bio), profilePic := pic) else u]
        + SetProfile(users[1..], id, fullname, bio, pic)
  }

  /** The matching rows take the three new values and keep their id,
      username, password and creation time; every other row is untouched. */
  lemma {:induction false} SetProfileAt(users: seq<User>, id: nat, fullname: string, bio: string, pic: Option<string>, i: nat)
    requires i < |users|
    ensures var r := SetProfile(users, id, fullname, bio, pic);
      && (users[i].id != id ==> r[i] == users[i])
      && (users[i].id == id ==>
            && r[i].fullname == fullname && r[i].bio == Some(bio) && r[i].profilePic == pic
            && r[i].(fullname := users[i].fullname, bio := users[i].bio, profilePic := users[i].profilePic) == users[i])
  {
    if i > 0 {
      SetProfileAt(users[1..], id, fullname, bio, pic, i - 1);
    }
  }

  // ---------------------------------------------------------------------
  // Invariants

  /** AUTOINCREMENT: the counter starts at 1, and ids grow with insertion
      order and stay below the next id to hand out; UNIQUE: no two users
      share a username. Then ids are a key, and the counter is ahead of the
      number of rows. */
  ghost predicate UsersValid(users: seq<User>, nextId: nat): (r: bool)
    ensures r ==> |users| < nextId
    ensures r ==> forall i, j :: 0 <= i < |users| && 0 <= j < |users| && users[i].id == users[j].id ==> i == j
  {
    if 1 <= nextId
       && (forall i :: 0 <= i < |users| ==> 1 <= users[i].id < nextId)
       && (forall i, j :: 0 <= i < j < |users| ==> users[i].id < users[j].id)
    then
      FewerRowsThanNextId(users, (u: User) => u.id, nextId);
      UniqueNames(users)
    else
      false
  }

  ghost predicate UniqueNames(users: seq<User>) {
    forall i, j :: 0 <= i < j < |users| ==> users[i].username != users[j].username
  }

  /** The post names an existing user, and its username snapshot is that
      user's username. */
  predicate Attributed(users: seq<User>, p: Post) {
    match FindUserById(users, p.userId)
    case Some(u) => u.username == p.username
    case None => false
  }

  /** AUTOINCREMENT on posts, and every post attributed to its author; ids
      are then a key, and the counter is ahead of the number of rows. */
  ghost predicate PostsValid(posts: seq<Post>, nextId: nat, users: seq<User>): (r: bool)
    ensures r ==> |posts| < nextId
    ensures r ==> forall i, j :: 0 <= i < |posts| && 0 <= j < |posts| && posts[i].id == posts[j].id ==> i == j
  {
    if 1 <= nextId
       && (forall i :: 0 <= i < |posts| ==> 1 <= posts[i].id < nextId)
       && (forall i, j :: 0 <= i < j < |posts| ==> posts[i].id < posts[j].id)
    then
      FewerRowsThanNextId(posts, (p: Post) => p.id, nextId);
      forall i :: 0 <= i < |posts| ==> Attributed(users, posts[i])
    else
      false
  }

  /** Rows whose ids increase and lie in [1, next) are fewer than `next`:
      AUTOINCREMENT's counter always stays ahead of the row count. */
  lemma {:induction false} FewerRowsThanNextId<T>(rows: seq<T>, id: T -> nat, next: nat)
    requires 1 <= next
    requires forall i :: 0 <= i < |rows| ==> 1 <= id(rows[i]) < next
    requires forall i, j :: 0 <= i < j < |rows| ==> id(rows[i]) < id(rows[j])
    ensures |rows| < next
  {
    if rows != [] {
      var init, last := rows[..|rows| - 1], id(rows[|rows| - 1]);
      forall i | 0 <= i < |init| ensures 1 <= id(init[i]) < last {
        assert init[i] == rows[i];
      }
      FewerRowsThanNextId(init, id, last);
      assert |rows| == |init| + 1 && last < next;
    }
  }

  /** Appending a post with the next id, attributed to its author, keeps the
      posts table valid with the counter moved past it. */
  lemma {:induction false} AppendPostValid(posts: seq<Post>, nextId: nat, users: seq<User>, p: Post)
    requires PostsValid(posts, nextId, users) && 1 <= nextId
    requires p.id == nextId && Attributed(users, p)
    ensures PostsValid(posts + [p], nextId + 1, users)
  {
    var r := posts + [p];
    forall i | 0 <= i < |r| ensures 1 <= r[i].id < nextId + 1 && Attributed(users, r[i]) {
      if i < |posts| { assert r[i] == posts[i]; }
    }
    forall i, j | 0 <= i < j < |r| ensures r[i].id < r[j].id {
      assert r[i] == posts[i];
      if j < |posts| { assert r[j] == posts[j]; }
    }
  }

  /** A like keeps the posts table valid: it touches no id, author or
      username snapshot. */
  lemma {:induction false} BumpLikesValid(posts: seq<Post>, nextId: nat, users: seq<User>, id: nat)
    requires PostsValid(posts, nextId, users)
    ensures PostsValid(BumpLikes(posts, id), nextId, users)
  {
    var r := BumpLikes(posts, id);
    forall i | 0 <= i < |r| ensures 1 <= r[i].id < nextId && Attributed(users, r[i]) {
      BumpLikesAt(posts, id, i);
      assert r[i].id == posts[i].id && r[i].userId == posts[i].userId && r[i].username == posts[i].username;
    }
    forall i, j | 0 <= i < j < |r| ensures r[i].id < r[j].id {
      BumpLikesAt(posts, id, i);
      BumpLikesAt(posts, id, j);
    }
  }

  /** A profile update keeps the users table valid: it changes no id and no
      username. */
  lemma {:induction false} SetProfileUsersValid(users: seq<User>, nextId: nat,
                                                uid: nat, fullname: string, bio: string, pic: Option<string>)
    requires UsersValid(users, nextId)
    ensures UsersValid(SetProfile(users, uid, fullname, bio, pic), nextId)
  {
    var updated := SetProfile(users, uid, fullname, bio, pic);
    forall i | 0 <= i < |updated| ensures 1 <= updated[i].id < nextId {
      SetProfileAt(users, uid, fullname, bio, pic, i);
      assert updated[i].id == users[i].id;
    }
    forall i, j | 0 <= i < j < |updated|
      ensures updated[i].id < updated[j].id && updated[i].username != updated[j].username
    {
      SetProfileAt(users, uid, fullname, bio, pic, i);
      SetProfileAt(users, uid, fullname, bio, pic, j);
      assert updated[i].id == users[i].id && updated[i].username == users[i].username;
      assert updated[j].id == users[j].id && updated[j].username == users[j].username;
    }
  }

  /** After a profile update every post still names its author, under the
      same username. */
  lemma {:induction false} SetProfilePostsValid(users: seq<User>, posts: seq<Post>, nextId: nat,
                                                uid: nat, fullname: string, bio: string, pic: Option<string>)
    requires PostsValid(posts, nextId, users)
    ensures PostsValid(posts, nextId, SetProfile(users, uid, fullname, bio, pic))
  {
    forall i | 0 <= i < |posts| ensures Attributed(SetProfile(users, uid, fullname, bio, pic), posts[i]) {
      SetProfileKeepsNames(users, uid, fullname, bio, pic, posts[i].userId);
    }
  }

  // ---------------------------------------------------------------------
  // Lookups after the table changes

  /** A lookup after one more row is appended finds what it found before,
      or else the new row when that has the key. */
  lemma {:induction false} FindFirstAppend<T, K>(rows: seq<T>, x: T, k: K, key: T -> K)
    ensures FindFirst(rows + [x], k, key) ==
      if FindFirst(rows, k, key).Some? then FindFirst(rows, k, key)
      else if key(x) == k then Some(x) else None
  {
    if rows != [] {
      assert (rows + [x])[1..] == rows[1..] + [x];
      FindFirstAppend(rows[1..], x, k, key);
    }
  }

  /** A profile update changes no id and no username, so every id lookup
      still finds a row, with the same username. */
  lemma {:induction false} SetProfileKeepsNames(users: seq<User>, uid: nat, fullname: string, bio: string, pic: Option<string>, id: nat)
    ensures var before, after := FindUserById(users, id), FindUserById(SetProfile(users, uid, fullname, bio, pic), id);
      before.Some? == after.Some? && (before.Some? ==> before.value.username == after.value.username)
  {
    if users != [] {
      assert SetProfile(users, uid, fullname, bio, pic)[1..] == SetProfile(users[1..], uid, fullname, bio, pic);
      SetProfileKeepsNames(users[1..], uid, fullname, bio, pic, id);
    }
  }

  /** When no two rows share a key, looking up a row's key finds that very
      row. */
  lemma {:induction false} FindFirstAt<T, K>(rows: seq<T>, key: T -> K, j: nat)
    requires j < |rows|
    requires forall a, b :: 0 <= a < b < |rows| ==> key(rows[a]) != key(rows[b])
    ensures FindFirst(rows, key(rows[j]), key) == Some(rows[j])
  {
    if j > 0 {
      assert key(rows[0]) != key(rows[j]);
      FindFirstAt(rows[1..], key, j - 1);
    }
  }

  /** With unique usernames, looking up any row's username finds that row. */
  lemma {:induction false} FindUserByNameUnique(users: seq<User>)
    ensures UniqueNames(users) ==>
      forall j :: 0 <= j < |users| ==> FindUserByName(users, users[j].username) == Some(users[j])
  {
    if UniqueNames(users) {
      forall j | 0 <= j < |users| ensures FindUserByName(users, users[j].username) == Some(users[j]) {
        FindFirstAt(users, UserName, j);
      }
    }
  }

  // ---------------------------------------------------------------------
  // Likes

  /** A like on an id no post has changes nothing. */
  lemma {:induction false} LikeUnknownIsNoop(posts: seq<Post>, id: nat)
    requires FindPost(posts, id).None?
    ensures BumpLikes(posts, id) == posts
  {
    if posts != [] {
      LikeUnknownIsNoop(posts[1..], id);
    }
  }

  /** `n` like requests on the same id, one after the other. */
  function LikeTimes(posts: seq<Post>, id: nat, n: nat): seq<Post> {
    if n == 0 then posts else BumpLikes(LikeTimes(posts, id, n - 1), id)
  }

  /** After `n` likes of a post its count has grown by exactly `n` and
      nothing else of any row has changed; no like is lost. */
  lemma {:induction false} LikesAccumulate(posts: seq<Post>, id: nat, n: nat)
    ensures |LikeTimes(posts, id, n)| == |posts|
    ensures forall i :: 0 <= i < |posts| ==>
      && LikeCount(LikeTimes(posts, id, n)[i]) == LikeCount(posts[i]) + (if posts[i].id == id then n else 0)
      && LikeTimes(posts, id, n)[i].(likes := posts[i].likes) == posts[i]
  {
    if n > 0 {
      LikesAccumulate(posts, id, n - 1);
      var before, after := LikeTimes(posts, id, n - 1), LikeTimes(posts, id, n);
      forall i | 0 <= i < |posts|
        ensures LikeCount(after[i]) == LikeCount(before[i]) + (if posts[i].id == id then 1 else 0)
        ensures after[i].(likes := before[i].likes) == before[i]
      {
        BumpLikesAt(before, id, i);
      }
    }
  }
}
