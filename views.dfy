/**
 * The read-only pages: the global feed, a user's profile and the admin
 * dashboard, each a select-filter-then-order over the tables.
 */
module Views {
  import opened Wrappers
  import opened Ordering
  import opened Tables

  function PostTime(p: Post): nat { p.createdAt }

  function UserTime(u: User): nat { u.createdAt }

  /** `feed`: every post, newest first (`ORDER BY created_at DESC`). */
  function FeedView(posts: seq<Post>): (r: seq<Post>)
    ensures multiset(r) == multiset(posts)
    ensures SortedDesc(r, PostTime)
  {
    SortByOrders(posts, PostTime);
    SortBy(posts, PostTime)
  }

  /** `WHERE username = ?` on posts: the posts whose username snapshot is
      `name`, in the order they come in. */
  function ByAuthor(posts: seq<Post>, name: string): (r: seq<Post>)
    ensures |r| <= |posts|
  {
    if posts == [] then []
    else (if posts[0].username == name then [posts[0]] else []) + ByAuthor(posts[1..], name)
  }

  /** `ByAuthor` keeps exactly the posts with that username. */
  lemma {:induction false} ByAuthorMembers(posts: seq<Post>, name: string)
    ensures forall p :: p in ByAuthor(posts, name) <==> p in posts && p.username == name
  {
    if posts != [] {
      ByAuthorMembers(posts[1..], name);
      assert posts == [posts[0]] + posts[1..];
    }
  }

  datatype Profile = Profile(owner: User, posts: seq<Post>)

  /** `profile(username)`: nothing when no user has that username; otherwise
      the user's row and exactly the posts carrying that username, newest
      first, which is the feed with everyone else's posts taken out. */
  function ProfileView(users: seq<User>, posts: seq<Post>, name: string): (r: Option<Profile>)
    ensures r.None? <==> forall i :: 0 <= i < |users| ==> users[i].username != name
    ensures r.Some? ==> r.value.owner in users && r.value.owner.username == name
    ensures r.Some? ==> SortedDesc(r.value.posts, PostTime)
    ensures r.Some? ==> forall p :: p in r.value.posts <==> p in posts && p.username == name
    ensures r.Some? ==> r.value.posts == ByAuthor(FeedView(posts), name)
  {
    match FindUserByName(users, name)
    case None => None
    case Some(u) =>
      var mine := SortBy(ByAuthor(posts, name), PostTime);
      ProfileOrderMatchesFeed(posts, name);
      ByAuthorMembers(posts, name);
      SortByOrders(ByAuthor(posts, name), PostTime);
      assert forall p :: p in mine <==> p in multiset(ByAuthor(posts, name));
      Some(Profile(u, mine))
  }

  datatype Dashboard = Dashboard(users: seq<User>, posts: seq<Post>)

  /** `admin`: only for a logged-in user whose username is exactly "admin";
      then all users and all posts, each newest first. */
  function AdminView(users: seq<User>, posts: seq<Post>, session: Option<nat>): (r: Option<Dashboard>)
    ensures r.Some? <==> CurrentUser(users, session).Some? && CurrentUser(users, session).value.username == "admin"
    ensures r.Some? ==> multiset(r.value.users) == multiset(users) && SortedDesc(r.value.users, UserTime)
    ensures r.Some? ==> multiset(r.value.posts) == multiset(posts) && SortedDesc(r.value.posts, PostTime)
  {
    match CurrentUser(users, session)
    case Some(u) =>
      SortByOrders(users, UserTime);
      if u.username == "admin" then Some(Dashboard(SortBy(users, UserTime), FeedView(posts))) else None
    case None =>
      None
  }

  /** `ByAuthor` on a sequence with a given first post. */
  lemma {:induction false} ByAuthorCons(a: Post, t: seq<Post>, name: string)
    ensures ByAuthor([a] + t, name) == (if a.username == name then [a] else []) + ByAuthor(t, name)
  {
    assert ([a] + t)[0] == a && ([a] + t)[1..] == t;
  }

  /** Taking one author's posts out of a sorted sequence commutes with
      inserting a post into it. */
  lemma {:induction false} ByAuthorInsert(x: Post, s: seq<Post>, name: string)
    requires SortedDesc(s, PostTime)
    ensures ByAuthor(Insert(x, s, PostTime), name) ==
      if x.username == name then Insert(x, ByAuthor(s, name), PostTime) else ByAuthor(s, name)
  {
    if s == [] || PostTime(x) >= PostTime(s[0]) {
      ByAuthorInsertFront(x, s, name);
    } else {
      ByAuthorInsert(x, s[1..], name);
      ByAuthorInsertBehind(x, s, name);
    }
  }

  /** `ByAuthorInsert` when `x` goes first. */
  lemma {:induction false} ByAuthorInsertFront(x: Post, s: seq<Post>, name: string)
    requires SortedDesc(s, PostTime)
    requires s == [] || PostTime(x) >= PostTime(s[0])
    ensures ByAuthor(Insert(x, s, PostTime), name) ==
      if x.username == name then Insert(x, ByAuthor(s, name), PostTime) else ByAuthor(s, name)
  {
    assert Insert(x, s, PostTime) == [x] + s;
    ByAuthorCons(x, s, name);
    var b := ByAuthor(s, name);
    if x.username == name {
      ByAuthorMembers(s, name);
      if b != [] {
        assert b[0] in s;
        var k :| 0 <= k < |s| && s[k] == b[0];
        assert k == 0 || PostTime(s[0]) >= PostTime(s[k]);
      }
      assert Insert(x, b, PostTime) == [x] + b;
    } else {
      assert [] + b == b;
    }
  }

  /** `ByAuthorInsert` when `x` goes behind the first post, given the claim
      for the rest of the sequence. */
  lemma {:induction false} ByAuthorInsertBehind(x: Post, s: seq<Post>, name: string)
    requires s != [] && PostTime(x) < PostTime(s[0])
    requires ByAuthor(Insert(x, s[1..], PostTime), name) ==
      if x.username == name then Insert(x, ByAuthor(s[1..], name), PostTime) else ByAuthor(s[1..], name)
    ensures ByAuthor(Insert(x, s, PostTime), name) ==
      if x.username == name then Insert(x, ByAuthor(s, name), PostTime) else ByAuthor(s, name)
  {
    var s' := s[1..];
    assert s == [s[0]] + s';
    var rest := Insert(x, s', PostTime);
    assert Insert(x, s, PostTime) == [s[0]] + rest;
    ByAuthorCons(s[0], rest, name);
    ByAuthorCons(s[0], s', name);
    var b' := ByAuthor(s', name);
    if x.username == name {
      if s[0].username == name {
        var t := [s[0]] + b';
        assert t[0] == s[0] && t[1..] == b';
        assert Insert(x, t, PostTime) == [s[0]] + Insert(x, b', PostTime);
      } else {
        assert [] + b' == b';
        assert [] + Insert(x, b', PostTime) == Insert(x, b', PostTime);
      }
    }
  }

  /** Ordering one author's posts gives the same sequence as taking that
      author's posts out of the ordered feed: the profile page lists them in
      feed order. */
  lemma {:induction false} ProfileOrderMatchesFeed(posts: seq<Post>, name: string)
    ensures SortBy(ByAuthor(posts, name), PostTime) == ByAuthor(SortBy(posts, PostTime), name)
  {
    if posts != [] {
      var x, rest := posts[0], posts[1..];
      var sorted := SortBy(rest, PostTime);
      SortByOrders(rest, PostTime);
      assert SortBy(posts, PostTime) == Insert(x, sorted, PostTime);
      ProfileOrderMatchesFeed(rest, name);
      ByAuthorInsert(x, sorted, name);
      var b := ByAuthor(rest, name);
      assert ByAuthor(posts, name) == (if x.username == name then [x] else []) + b;
      if x.username == name {
        SortByCons(x, b, PostTime);
      } else {
        assert [] + b == b;
      }
    }
  }

  /** A post newer than every other post heads the feed. */
  lemma {:induction false} NewestPostLeadsFeed(posts: seq<Post>, p: Post)
    requires forall i :: 0 <= i < |posts| ==> posts[i].createdAt < p.createdAt
    ensures FeedView(posts + [p])[0] == p
  {
    var r := FeedView(posts + [p]);
    assert p in multiset(r);
    forall y | y in r && y != p ensures PostTime(y) < PostTime(p) {
      assert y in multiset(posts + [p]);
      assert y in posts;
    }
    LargestKeyFirst(r, p, PostTime);
  }
}
