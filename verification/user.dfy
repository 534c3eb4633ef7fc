/** The `User` entity of `models/user.py` and the author checks that compare users by name. */
module Users {
  import opened Wrappers
  import opened Properties
  import Sets

  /** A registered user; the key id is the map key of the user table. */
  datatype User = User(name: string, hashedPw: string, email: string)

  /** `User(name=..., hashed_pw=..., email=...)`: `name` and `hashed_pw` are required string
      properties and `email` an optional one, each checked as it is assigned. */
  function NewUser(name: string, hashedPw: string, email: string): (r: Py<User>)
    ensures r.Ok? <==> StringOk(name, true) && StringOk(hashedPw, true) && StringOk(email, false)
    ensures r.Ok? ==> r.value == User(name, hashedPw, email)
    ensures r.Raise? ==> r.exc == BadValueError
  {
    if StringOk(name, true) && StringOk(hashedPw, true) && StringOk(email, false) then Ok(User(name, hashedPw, email))
    else Raise(BadValueError)
  }

  /** `User.by_name(name)`: the first user with that name. An equality-filtered query
      without an ordering comes back in key order, so "first" is the smallest id. */
  function ByName(users: map<int, User>, name: string): (r: Option<int>)
    ensures r.None? <==> forall id :: id in users ==> users[id].name != name
    ensures r.Some? ==> r.value in users && users[r.value].name == name
    ensures r.Some? ==> forall id :: id in users && users[id].name == name ==> r.value <= id
  {
    var ids := set id | id in users && users[id].name == name;
    if ids == {} then
      assert forall id :: id in users ==> users[id].name != name by {
        forall id | id in users ensures users[id].name != name { assert id !in ids; }
      }
      None
    else
      var least := Sets.Least(ids);
      assert forall id :: id in users && users[id].name == name ==> id in ids;
      Some(least)
  }

  /** Storing a user under a fresh id and a name nobody has makes the name query find it. */
  lemma ByNameAfterAdd(users: map<int, User>, uid: int, u: User)
    requires uid !in users && ByName(users, u.name).None?
    ensures ByName(users[uid := u], u.name) == Some(uid)
  {
    var users' := users[uid := u];
    assert uid in users' && users'[uid].name == u.name;
    var r := ByName(users', u.name);
    assert r.Some? && r.value in users' && users'[r.value].name == u.name;
  }

  /** No two registered users share a name. */
  predicate UniqueNames(users: map<int, User>) {
    forall i, j :: i in users && j in users && users[i].name == users[j].name ==> i == j
  }

  /** Under unique names the name query finds exactly the user carrying that name. */
  lemma ByNameFindsTheUser(users: map<int, User>, name: string, id: int)
    requires UniqueNames(users)
    ensures ByName(users, name) == Some(id) <==> id in users && users[id].name == name
  {
  }

  /** `valid_author(user_obj)` of posts and comments: falsy without a user; otherwise the
      author reference is followed (raising when it no longer resolves) and the author's
      NAME is compared with the user's. */
  function NameMatch(users: map<int, User>, author: int, user: Option<User>): (r: Py<bool>)
    ensures user.None? ==> r == Ok(false)
    ensures r.Raise? <==> user.Some? && author !in users
    ensures r.Raise? ==> r.exc == ReferencePropertyResolveError
  {
    match user
    case None => Ok(false)
    case Some(u) =>
      if author !in users then Raise(ReferencePropertyResolveError)
      else Ok(users[author].name == u.name)
  }

  /** Comparing names is comparing ids as long as names are unique: for a registered caller
      and a resolvable author, the check holds exactly when the caller is the author. */
  lemma NameMatchIsIdentity(users: map<int, User>, author: int, me: int)
    requires UniqueNames(users) && me in users && author in users
    ensures NameMatch(users, author, Some(users[me])) == Ok(author == me)
  {
  }

  /** Without unique names the check is not an identity test: a namesake passes it. */
  lemma NamesakePasses(users: map<int, User>, author: int, other: int)
    requires author in users && other in users && author != other
    requires users[author].name == users[other].name
    ensures NameMatch(users, author, Some(users[other])) == Ok(true)
  {
  }
}
