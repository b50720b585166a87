/**
 * Registration and credential checking over the `users` table: the input
 * validation of `signup`, the lookup-then-verify of `login`, and how the two
 * fit together.
 */
module Accounts {
  import opened Wrappers
  import opened Text
  import opened Tables

  /** What a handler reports (as a flashed message and a redirect) instead
      of doing its work. */
  datatype Error =
    | InvalidInput     // "Please provide username and password."
    | UsernameTaken    // "Username already taken."
    | BadCredentials   // "Invalid username or password."
    | LoginRequired    // not logged in
    | PostNotFound     // "Original post not found."

  /** Why `signup` refuses the form, if it does: an empty stripped username
      or an empty password, else a username already in the table. */
  function SignupError(users: seq<User>, username: string, password: string): (r: Option<Error>)
    ensures r == Some(InvalidInput) <==> AllSpace(username) || password == []
    ensures r == Some(UsernameTaken) <==>
      && !AllSpace(username) && password != []
      && exists i :: 0 <= i < |users| && users[i].username == Strip(username)
    ensures r.None? || r == Some(InvalidInput) || r == Some(UsernameTaken)
  {
    StripEmptyIff(username);
    var name := Strip(username);
    if name == [] || password == [] then Some(InvalidInput)
    else if FindUserByName(users, name).Some? then Some(UsernameTaken)
    else None
  }

  /** The row `signup` inserts: the stripped username, the hashed password,
      the full name as given, no bio and no picture. */
  function NewUser(id: nat, username: string, hashed: string, fullname: string, now: nat): (r: User)
    ensures r.id == id && r.password == hashed && r.bio.None? && r.profilePic.None?
    ensures |r.username| <= |username|
    ensures r.username == [] <==> AllSpace(username)
    ensures r.username == [] || (!IsSpace(r.username[0]) && !IsSpace(r.username[|r.username| - 1]))
  {
    StripEmptyIff(username);
    User(id, Strip(username), hashed, fullname, None, None, now)
  }

  /** The user id `login` puts in the session, if any: the user with the
      stripped username, provided the password checks against the stored
      hash. With unique usernames this is an if-and-only-if. */
  function Authenticate(users: seq<User>, check: (string, string) -> bool, username: string, password: string): (r: Option<nat>)
    ensures r.Some? ==>
      exists i :: 0 <= i < |users| && users[i].id == r.value
        && users[i].username == Strip(username) && check(users[i].password, password)
    ensures UniqueNames(users) ==>
      forall i :: 0 <= i < |users| && users[i].username == Strip(username) && check(users[i].password, password)
        ==> r == Some(users[i].id)
  {
    FindUserByNameUnique(users);
    match FindUserByName(users, Strip(username))
    case Some(u) =>
      if check(u.password, password) then Some(u.id) else None
    case None =>
      None
  }

  /** Registration keeps usernames unique. */
  lemma {:induction false} SignupKeepsNamesUnique(users: seq<User>, username: string, password: string,
                                                  id: nat, hashed: string, fullname: string, now: nat)
    requires UniqueNames(users) && SignupError(users, username, password).None?
    ensures UniqueNames(users + [NewUser(id, username, hashed, fullname, now)])
  {
  }

  /** A registration followed by a login with the same password, and a
      username that strips to the same name, logs the new user in, provided
      the stored hash checks against the password. */
  lemma {:induction false} SignupThenLogin(users: seq<User>, check: (string, string) -> bool,
                                           username: string, password: string, hashed: string,
                                           fullname: string, id: nat, now: nat, login: string)
    requires SignupError(users, username, password).None?
    requires check(hashed, password) && Strip(login) == Strip(username)
    ensures Authenticate(users + [NewUser(id, username, hashed, fullname, now)], check, login, password) == Some(id)
  {
    var u := NewUser(id, username, hashed, fullname, now);
    FindFirstAppend(users, u, Strip(username), UserName);
  }

  /** Once a name is registered, every later registration whose username
      strips to that name is refused as taken. */
  lemma {:induction false} SecondSignupTaken(users: seq<User>, username: string, password: string,
                                             id: nat, hashed: string, fullname: string, now: nat,
                                             again: string, password2: string)
    requires SignupError(users, username, password).None?
    requires Strip(again) == Strip(username) && password2 != []
    ensures SignupError(users + [NewUser(id, username, hashed, fullname, now)], again, password2) == Some(UsernameTaken)
  {
    StripEmptyIff(username);
    StripEmptyIff(again);
    var users' := users + [NewUser(id, username, hashed, fullname, now)];
    assert users'[|users|].username == Strip(again);
  }
}
