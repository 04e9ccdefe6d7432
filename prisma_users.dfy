/** The Prisma user service (src/service/user-service.js) over an in-memory
    user table. bcrypt is a pair of functions fixed when the service is
    built: `hash(password, salt)` and `compare(password, hashed)`; the salt
    bcrypt draws at random and the uuid a login issues are parameters. */
module PrismaUsers {
  import opened Wrappers
  import opened Requests
  import UserValidation

  datatype User = User(id: int, username: string, email: string, password: string,
                       name: string, token: Option<string>)

  /** The `select` of `register` and `get`: no password, no token. */
  datatype Profile = Profile(id: int, username: string, email: string, name: string)

  /** The `select` of `update`, which includes the stored password hash. */
  datatype UpdatedProfile = UpdatedProfile(id: int, username: string, email: string, name: string, password: string)

  const Duplicate := Rejected(400, "Username or Email already exists")
  const BadCredentials := Rejected(401, "Username or password wrong")
  const UserNotFound := Rejected(404, "User is not found")

  function ProfileOf(u: User): (p: Profile)
    ensures p.id == u.id && p.username == u.username && p.email == u.email && p.name == u.name
  {
    Profile(u.id, u.username, u.email, u.name)
  }

  ghost predicate KeysMatch(users: map<int, User>)
  {
    forall id :: id in users ==> users[id].id == id
  }

  /** `OR: [{ username }, { email }]`. */
  predicate Clashes(u: User, username: string, email: string)
  {
    u.username == username || u.email == email
  }

  /** `user.count({ where: { OR: [{ username }, { email }] } })`. */
  function MatchCount(users: map<int, User>, username: string, email: string): nat
  {
    |set id | id in users && Clashes(users[id], username, email)|
  }

  /** The check `register` makes, as written: refuse when exactly one user matches. */
  predicate RefusedAsWritten(users: map<int, User>, username: string, email: string)
  {
    MatchCount(users, username, email) == 1
  }

  /** The check `register` evidently means: refuse when any user matches. */
  predicate RefusedIntended(users: map<int, User>, username: string, email: string)
  {
    MatchCount(users, username, email) >= 1
  }

  /** No two users share a username or an email. */
  ghost predicate UniqueAccounts(users: map<int, User>)
  {
    forall a, b :: a in users && b in users && a != b ==>
      users[a].username != users[b].username && users[a].email != users[b].email
  }

  lemma NoMatchMeansNoClash(users: map<int, User>, username: string, email: string)
    requires MatchCount(users, username, email) == 0
    ensures forall id :: id in users ==> !Clashes(users[id], username, email)
  {
    var matching := set id | id in users && Clashes(users[id], username, email);
    assert |matching| == 0;
    assert matching == {};
    forall id | id in users ensures !Clashes(users[id], username, email) {
      assert id !in matching;
    }
  }

  /** With the intended check, every registration keeps usernames and emails unique. */
  lemma IntendedCheckKeepsAccountsUnique(users: map<int, User>, k: int, u: User)
    requires UniqueAccounts(users) && k !in users
    requires !RefusedIntended(users, u.username, u.email)
    ensures UniqueAccounts(users[k := u])
  {
    NoMatchMeansNoClash(users, u.username, u.email);
  }

  /** As written, two users that each match one field do not stop a
      registration: users 1 ("ann", "ann@x") and 2 ("bob", "bob@x"), and a
      request for ("ann", "bob@x") matches two users and is let through. */
  lemma AsWrittenAcceptsTwoMatches()
    ensures var users := map[1 := User(1, "ann", "ann@x", "h1", "Ann", None),
                             2 := User(2, "bob", "bob@x", "h2", "Bob", None)];
      && UniqueAccounts(users)
      && MatchCount(users, "ann", "bob@x") == 2
      && !RefusedAsWritten(users, "ann", "bob@x")
      && RefusedIntended(users, "ann", "bob@x")
      && !UniqueAccounts(users[3 := User(3, "ann", "bob@x", "h3", "Eve", None)])
  {
    var users := map[1 := User(1, "ann", "ann@x", "h1", "Ann", None),
                     2 := User(2, "bob", "bob@x", "h2", "Bob", None)];
    var matching := set id | id in users && Clashes(users[id], "ann", "bob@x");
    assert matching == {1, 2} by {
      assert 1 in matching && 2 in matching;
      forall id | id in matching ensures id == 1 || id == 2 {
        assert id in users;
      }
    }
    var after := users[3 := User(3, "ann", "bob@x", "h3", "Eve", None)];
    assert after[1].username == after[3].username;
  }

  /** `findFirst` with `OR: [{ username: key }, { email: key }]` among the
      ids in `[lo, hi)`: the lowest id that matches. */
  function FirstMatch(users: map<int, User>, lo: int, hi: int, key: string): (r: Option<int>)
    ensures r.Some? ==> lo <= r.value < hi && r.value in users && Clashes(users[r.value], key, key)
    ensures r.Some? ==> forall j :: lo <= j < r.value && j in users ==> !Clashes(users[j], key, key)
    ensures r.None? ==> forall j :: lo <= j < hi && j in users ==> !Clashes(users[j], key, key)
    decreases hi - lo
  {
    if lo >= hi then None
    else if lo in users && Clashes(users[lo], key, key) then Some(lo)
    else FirstMatch(users, lo + 1, hi, key)
  }

  /** `if (updateRequest.field)`: present and not the empty string. */
  predicate Supplied(req: Request, key: string)
  {
    key in req && req[key].Text? && |req[key].s| > 0
  }

  /** The row after `update`'s `updateData`: each field supplied with a
      truthy value is replaced, the password by its hash; nothing else moves. */
  function ApplyUpdate(u: User, req: Request, hashed: string): (r: User)
    ensures r.id == u.id && r.token == u.token
    ensures r.username == (if Supplied(req, "username") then req["username"].s else u.username)
    ensures r.email == (if Supplied(req, "email") then req["email"].s else u.email)
    ensures r.name == (if Supplied(req, "name") then req["name"].s else u.name)
    ensures r.password == (if Supplied(req, "password") then hashed else u.password)
  {
    u.(username := if Supplied(req, "username") then req["username"].s else u.username,
       email := if Supplied(req, "email") then req["email"].s else u.email,
       name := if Supplied(req, "name") then req["name"].s else u.name,
       password := if Supplied(req, "password") then hashed else u.password)
  }

  /** An update that sends only the id changes nothing. */
  lemma IdOnlyUpdateChangesNothing(u: User, id: int, hashed: string)
    ensures ApplyUpdate(u, map["id" := Integer(id)], hashed) == u
  {
  }

  /** Repeating an update: the second application decides every field it
      sets. Without a `password` the repeat changes nothing more; with one
      the row ends with the second hash, which bcrypt salts afresh, and the
      first hash is lost. */
  lemma RepeatedUpdate(u: User, req: Request, first: string, second: string)
    ensures ApplyUpdate(ApplyUpdate(u, req, first), req, second) == ApplyUpdate(u, req, second)
    ensures !Supplied(req, "password") ==>
      ApplyUpdate(ApplyUpdate(u, req, first), req, second) == ApplyUpdate(u, req, first)
    ensures Supplied(req, "password") ==> ApplyUpdate(ApplyUpdate(u, req, first), req, second).password == second
  {
  }

  class UserService {
    var users: map<int, User>
    var nextId: int
    /** bcrypt.hash(password, salt). */
    const hash: (string, int) -> string
    /** bcrypt.compare(password, hashed). */
    const compare: (string, string) -> bool

    ghost predicate Valid()
      reads this
    {
      && nextId >= 1
      && KeysMatch(users)
      && (forall id :: id in users ==> 1 <= id < nextId)
    }

    constructor (hash: (string, int) -> string, compare: (string, string) -> bool)
      ensures Valid() && users == map[] && nextId == 1
      ensures this.hash == hash && this.compare == compare
    {
      users := map[];
      nextId := 1;
      this.hash := hash;
      this.compare := compare;
    }

    /** `register`: refuses when exactly one user has the username or the
        email; otherwise stores the user with the hashed password and returns
        the profile. */
    method Register(req: Request, isEmail: string -> bool, salt: int) returns (r: Result<Profile, Failure>)
      requires Valid()
      modifies this
      ensures Valid()
      ensures !UserValidation.Register(req, isEmail) ==> r == Err(Invalid) && unchanged(this)
      ensures UserValidation.Register(req, isEmail)
              && RefusedAsWritten(old(users), req["username"].s, req["email"].s) ==>
        r == Err(Duplicate) && unchanged(this)
      ensures UserValidation.Register(req, isEmail)
              && !RefusedAsWritten(old(users), req["username"].s, req["email"].s) ==>
        var u := User(old(nextId), req["username"].s, req["email"].s,
                      hash(req["password"].s, salt), req["name"].s, None);
        && old(nextId) !in old(users)
        && users == old(users)[old(nextId) := u]
        && nextId == old(nextId) + 1
        && r == Ok(ProfileOf(u))
      ensures UserValidation.Register(req, isEmail) && UniqueAccounts(old(users))
              && !RefusedIntended(old(users), req["username"].s, req["email"].s) ==>
        UniqueAccounts(users)
    {
      if !UserValidation.Register(req, isEmail) {
        return Err(Invalid);
      }
      var username := req["username"].s;
      var email := req["email"].s;
      if MatchCount(users, username, email) == 1 {
        return Err(Duplicate);
      }
      var u := User(nextId, username, email, hash(req["password"].s, salt), req["name"].s, None);
      if UniqueAccounts(users) && !RefusedIntended(users, username, email) {
        IntendedCheckKeepsAccountsUnique(users, nextId, u);
      }
      users := users[nextId := u];
      nextId := nextId + 1;
      r := Ok(ProfileOf(u));
    }

    /** `login`: the first user whose username or email is the given
        `username`, if the password matches its hash, gets the fresh token,
        which is all that is returned. */
    method Login(req: Request, freshToken: string) returns (r: Result<string, Failure>)
      requires Valid()
      modifies this
      ensures Valid()
      ensures !UserValidation.Login(req) ==> r == Err(Invalid) && unchanged(this)
      ensures UserValidation.Login(req) ==>
        var found := FirstMatch(old(users), 1, old(nextId), req["username"].s);
        && (found.None? ==> r == Err(BadCredentials) && unchanged(this))
        && (found.Some? && !compare(req["password"].s, old(users)[found.value].password) ==>
              r == Err(BadCredentials) && unchanged(this))
        && (found.Some? && compare(req["password"].s, old(users)[found.value].password) ==>
              && r == Ok(freshToken)
              && users == old(users)[found.value := old(users)[found.value].(token := Some(freshToken))]
              && nextId == old(nextId))
    {
      if !UserValidation.Login(req) {
        return Err(Invalid);
      }
      var found := FirstMatch(users, 1, nextId, req["username"].s);
      if found.None? {
        return Err(BadCredentials);
      }
      var u := users[found.value];
      if !compare(req["password"].s, u.password) {
        return Err(BadCredentials);
      }
      users := users[found.value := u.(token := Some(freshToken))];
      r := Ok(freshToken);
    }

    /** `get`: the profile of a stored user. */
    method Get(v: Value) returns (r: Result<Profile, Failure>)
      requires Valid()
      ensures !UserValidation.GetUser(v) ==> r == Err(Invalid)
      ensures UserValidation.GetUser(v) && v.n !in users ==> r == Err(UserNotFound)
      ensures UserValidation.GetUser(v) && v.n in users ==> r == Ok(ProfileOf(users[v.n])) && r.value.id == v.n
    {
      if !UserValidation.GetUser(v) {
        return Err(Invalid);
      }
      if v.n !in users {
        return Err(UserNotFound);
      }
      r := Ok(ProfileOf(users[v.n]));
    }

    /** `update`: only the supplied fields of that one user change. */
    method Update(req: Request, isEmail: string -> bool, salt: int) returns (r: Result<UpdatedProfile, Failure>)
      requires Valid()
      modifies this
      ensures Valid()
      ensures !UserValidation.Update(req, isEmail) ==> r == Err(Invalid) && unchanged(this)
      ensures UserValidation.Update(req, isEmail) && req["id"].n !in old(users) ==>
        r == Err(UserNotFound) && unchanged(this)
      ensures UserValidation.Update(req, isEmail) && req["id"].n in old(users) ==>
        var id := req["id"].n;
        var hashed := if Supplied(req, "password") then hash(req["password"].s, salt) else "";
        var u := ApplyUpdate(old(users)[id], req, hashed);
        && users == old(users)[id := u]
        && nextId == old(nextId)
        && r == Ok(UpdatedProfile(id, u.username, u.email, u.name, u.password))
    {
      if !UserValidation.Update(req, isEmail) {
        return Err(Invalid);
      }
      var id := req["id"].n;
      if id !in users {
        return Err(UserNotFound);
      }
      var hashed := if Supplied(req, "password") then hash(req["password"].s, salt) else "";
      var u := ApplyUpdate(users[id], req, hashed);
      users := users[id := u];
      r := Ok(UpdatedProfile(id, u.username, u.email, u.name, u.password));
    }

    /** `logout`: that user's token becomes null; the whole row is returned. */
    method Logout(v: Value) returns (r: Result<User, Failure>)
      requires Valid()
      modifies this
      ensures Valid()
      ensures !UserValidation.GetUser(v) ==> r == Err(Invalid) && unchanged(this)
      ensures UserValidation.GetUser(v) && v.n !in old(users) ==> r == Err(UserNotFound) && unchanged(this)
      ensures UserValidation.GetUser(v) && v.n in old(users) ==>
        && users == old(users)[v.n := old(users)[v.n].(token := None)]
        && nextId == old(nextId)
        && r == Ok(users[v.n])
    {
      if !UserValidation.GetUser(v) {
        return Err(Invalid);
      }
      if v.n !in users {
        return Err(UserNotFound);
      }
      users := users[v.n := users[v.n].(token := None)];
      r := Ok(users[v.n]);
    }
  }
}
