/** The Mongoose account service (services/user.js): the `salt:key` password
    hash, its check, sign-up and the sign-in decision. The key derivation
    (`crypto.scrypt`), the random salt and the token signer are parameters;
    the key derivation is a function, so it is deterministic. */
module MongoUsers {
  import opened Wrappers
  import opened MongoStore
  import Feed

  newtype byte = x: int | 0 <= x < 256

  /** A derived key: `scrypt(password, salt, 64)` yields 64 bytes. */
  type Key64 = s: seq<byte> | |s| == 64 witness seq(64, _ => 0 as byte)

  /** Salts are 8 random bytes. */
  const SaltBytes := 8

  // ---- Hex encoding ------------------------------------------------------------

  function HexDigit(d: int): char
    requires 0 <= d < 16
  {
    "0123456789abcdef"[d]
  }

  /** `buffer.toString('hex')`: two lower-case digits per byte, high nibble first. */
  function Hex(bs: seq<byte>): (r: string)
    ensures |r| == 2 * |bs|
    ensures ':' !in r
  {
    if bs == [] then ""
    else
      var rest := Hex(bs[1..]);
      assert HexDigit(bs[0] as int / 16) != ':' && HexDigit(bs[0] as int % 16) != ':';
      [HexDigit(bs[0] as int / 16), HexDigit(bs[0] as int % 16)] + rest
  }

  lemma HexDigitInjective(a: int, b: int)
    requires 0 <= a < 16 && 0 <= b < 16 && HexDigit(a) == HexDigit(b)
    ensures a == b
  {
  }

  /** Different byte strings have different hex encodings. */
  lemma {:induction false} HexInjective(a: seq<byte>, b: seq<byte>)
    requires Hex(a) == Hex(b)
    ensures a == b
  {
    if a != [] {
      var ha := Hex(a);
      var hb := Hex(b);
      assert |b| == |a|;
      assert ha[0] == hb[0] && ha[1] == hb[1];
      HexDigitInjective(a[0] as int / 16, b[0] as int / 16);
      HexDigitInjective(a[0] as int % 16, b[0] as int % 16);
      assert a[0] == b[0];
      assert Hex(a[1..]) == ha[2..] == hb[2..] == Hex(b[1..]);
      HexInjective(a[1..], b[1..]);
      assert a == [a[0]] + a[1..] && b == [b[0]] + b[1..];
    }
  }

  // ---- String splitting ----------------------------------------------------------

  /** The index of the first `c` in `s`. */
  function IndexOf(s: string, c: char): (i: nat)
    requires c in s
    ensures i < |s| && s[i] == c && c !in s[..i]
    ensures forall j :: 0 <= j < i ==> s[j] != c
  {
    if s[0] == c then 0
    else
      assert c in s[1..];
      var j := IndexOf(s[1..], c);
      assert s[..j + 1] == [s[0]] + s[1..][..j];
      j + 1
  }

  /** `s.split(sep)`: the pieces between the separators, none of them
      holding one; there is always at least one piece. */
  function Split(s: string, sep: char): (r: seq<string>)
    ensures |r| >= 1
    ensures forall p :: p in r ==> sep !in p
    decreases |s|
  {
    if sep !in s then [s]
    else
      var i := IndexOf(s, sep);
      [s[..i]] + Split(s[i + 1..], sep)
  }

  /** A string made of a separator-free head, a separator and a tail splits
      into the head and the pieces of the tail. */
  lemma SplitAtFirst(a: string, sep: char, b: string)
    requires sep !in a
    ensures Split(a + [sep] + b, sep) == [a] + Split(b, sep)
  {
    var s := a + [sep] + b;
    assert s[|a|] == sep;
    var i := IndexOf(s, sep);
    assert forall j :: 0 <= j < |a| ==> s[j] == a[j];
    assert i == |a|;
    assert s[..i] == a;
    assert s[i + 1..] == b;
  }

  // ---- The password hash ---------------------------------------------------------

  /** `hashPassword`: the hex salt, a colon, and the hex of the key derived
      from the password and the hex salt. */
  function HashPassword(kdf: (string, string) -> Key64, password: string, salt: seq<byte>): string
  {
    Hex(salt) + ":" + Hex(kdf(password, Hex(salt)))
  }

  /** `verifyPassword`: split at the colons, derive a key from the password
      and the first piece, and compare its hex with the second piece; with
      no second piece the comparison is against `undefined` and fails. */
  function VerifyPassword(kdf: (string, string) -> Key64, password: string, hash: string): bool
  {
    var pieces := Split(hash, ':');
    |pieces| >= 2 && pieces[1] == Hex(kdf(password, pieces[0]))
  }

  /** The stored format: 16 hex digits of salt, a colon at index 16, then
      128 hex digits of key; split at the colon it gives back exactly the
      salt and the key. */
  lemma HashFormat(kdf: (string, string) -> Key64, password: string, salt: seq<byte>)
    requires |salt| == SaltBytes
    ensures var h := HashPassword(kdf, password, salt);
      && |h| == 16 + 1 + 128 && h[16] == ':'
      && Split(h, ':') == [Hex(salt), Hex(kdf(password, Hex(salt)))]
  {
    var key := Hex(kdf(password, Hex(salt)));
    SplitAtFirst(Hex(salt), ':', key);
    assert Hex(salt) + ":" + key == Hex(salt) + [':'] + key;
  }

  /** The check accepts the password the hash was made from. */
  lemma VerifyAcceptsOwnHash(kdf: (string, string) -> Key64, password: string, salt: seq<byte>)
    ensures VerifyPassword(kdf, password, HashPassword(kdf, password, salt))
  {
    var key := Hex(kdf(password, Hex(salt)));
    SplitAtFirst(Hex(salt), ':', key);
    assert HashPassword(kdf, password, salt) == Hex(salt) + [':'] + key;
  }

  /** The check accepts another password only when the key derivation gives
      it the same key under that salt. */
  lemma VerifyAcceptsOnlyMatchingKeys(kdf: (string, string) -> Key64, password: string, other: string, salt: seq<byte>)
    requires VerifyPassword(kdf, other, HashPassword(kdf, password, salt))
    ensures kdf(other, Hex(salt)) == kdf(password, Hex(salt))
  {
    var key := Hex(kdf(password, Hex(salt)));
    SplitAtFirst(Hex(salt), ':', key);
    assert HashPassword(kdf, password, salt) == Hex(salt) + [':'] + key;
    HexInjective(kdf(other, Hex(salt)), kdf(password, Hex(salt)));
  }

  /** A password without a colon is never stored as it is: the hash always
      holds one. */
  lemma HashIsNotPlaintext(kdf: (string, string) -> Key64, password: string, salt: seq<byte>)
    requires ':' !in password
    ensures HashPassword(kdf, password, salt) != password
  {
    var h := HashPassword(kdf, password, salt);
    assert h[|Hex(salt)|] == ':';
  }

  // ---- Accounts ------------------------------------------------------------------

  datatype MUser = MUser(id: int, username: string, fullname: string, email: string, password: string)

  const Taken := "Error! Username or Email already in used."
  const Mismatch := "Error! Password do not match."
  const WrongCredentials := "Error! Incorrect username or password."
  /** The `TypeError` of `userRecord.password` when no user has the name. */
  const NoRecord := "Cannot read properties of null (reading 'password')"

  function UserKey(u: MUser): int
  {
    u.id
  }

  /** Some account has the username or the email. */
  predicate InUse(users: map<int, MUser>, username: string, email: string)
  {
    exists k :: k in users && (users[k].username == username || users[k].email == email)
  }

  /** No two accounts share a username, and no two share an email. */
  ghost predicate Unique(users: map<int, MUser>)
  {
    forall j, k :: j in users && k in users && j != k ==>
      users[j].username != users[k].username && users[j].email != users[k].email
  }

  class Accounts {
    var users: map<int, MUser>
    var nextId: int
    /** `crypto.scrypt` with a 64-byte key. */
    const kdf: (string, string) -> Key64

    ghost predicate Valid()
      reads this
    {
      && nextId >= 1
      && (forall k :: k in users ==> users[k].id == k && 1 <= k < nextId)
      && Unique(users)
    }

    constructor (kdf: (string, string) -> Key64)
      ensures Valid()
      ensures users == map[] && nextId == 1 && this.kdf == kdf
    {
      users := map[];
      nextId := 1;
      this.kdf := kdf;
    }

    /** `SignUp`: refused when the username or the email is in use, then when
        the two passwords differ; otherwise the account is stored with the
        hash of the password under the given salt. */
    method SignUp(username: string, fullname: string, email: string, password1: string, password2: string,
                  salt: seq<byte>) returns (r: Outcome<MUser>)
      requires Valid()
      modifies this
      ensures Valid()
      ensures InUse(old(users), username, email) ==> r == Thrown(ErrorKey, Taken) && unchanged(this)
      ensures !InUse(old(users), username, email) && password1 != password2 ==>
        r == Thrown(ErrorKey, Mismatch) && unchanged(this)
      ensures !InUse(old(users), username, email) && password1 == password2 ==>
        var id := old(nextId);
        && id !in old(users)
        && users == old(users)[id := MUser(id, username, fullname, email, HashPassword(kdf, password1, salt))]
        && nextId == id + 1
        && r == Done(users[id])
        && VerifyPassword(kdf, password1, users[id].password)
    {
      if InUse(users, username, email) {
        return Thrown(ErrorKey, Taken);
      }
      if password1 != password2 {
        return Thrown(ErrorKey, Mismatch);
      }
      var id := nextId;
      var user := MUser(id, username, fullname, email, HashPassword(kdf, password1, salt));
      VerifyAcceptsOwnHash(kdf, password1, salt);
      users := users[id := user];
      nextId := id + 1;
      r := Done(user);
    }
  }

  /** The first account, by id, with the username: `findOne({ username })`. */
  function FindByName(rows: seq<MUser>, username: string): (r: Option<MUser>)
    ensures r.Some? ==> r.value in rows && r.value.username == username
    ensures r.None? ==> forall u :: u in rows ==> u.username != username
  {
    if rows == [] then None
    else if rows[0].username == username then Some(rows[0])
    else FindByName(rows[1..], username)
  }

  /** A successful sign-in: the account and its two tokens. */
  datatype SignedIn = SignedIn(user: MUser, accessToken: string, refreshToken: string)

  /** `SignIn`: the password check runs on the found record before anything
      else, so an unknown username fails on reading `password` of `null`; a
      failed check is reported with the credentials message. */
  function SignIn(users: map<int, MUser>, n: int, kdf: (string, string) -> Key64,
                  accessToken: MUser -> string, refreshToken: MUser -> string,
                  username: string, password: string): Outcome<SignedIn>
    requires forall k :: k in users ==> users[k].id == k
  {
    match FindByName(Feed.Rows(users, n, UserKey), username)
    case None => Thrown(RuntimeError, NoRecord)
    case Some(u) =>
      if !VerifyPassword(kdf, password, u.password) then Thrown(ErrorKey, WrongCredentials)
      else Done(SignedIn(u, accessToken(u), refreshToken(u)))
  }

  /** Tokens are issued only for an account with that username whose stored
      hash accepts the password; an unknown username is a runtime error, a
      bad password the credentials error. */
  lemma SignInFacts(users: map<int, MUser>, n: int, kdf: (string, string) -> Key64,
                    accessToken: MUser -> string, refreshToken: MUser -> string, username: string, password: string)
    requires forall k :: k in users ==> users[k].id == k && 0 <= k < n
    ensures var o := SignIn(users, n, kdf, accessToken, refreshToken, username, password);
      && (o.Done? ==>
            && o.value.user.id in users && users[o.value.user.id] == o.value.user
            && o.value.user.username == username
            && VerifyPassword(kdf, password, o.value.user.password)
            && o.value.accessToken == accessToken(o.value.user) && o.value.refreshToken == refreshToken(o.value.user))
      && (o == Thrown(RuntimeError, NoRecord) <==> forall k :: k in users ==> users[k].username != username)
      && (o.Thrown? ==> o == Thrown(RuntimeError, NoRecord) || o == Thrown(ErrorKey, WrongCredentials))
  {
    var rows := Feed.Rows(users, n, UserKey);
    var found := FindByName(rows, username);
    if found.None? {
      forall k | k in users ensures users[k].username != username {
        assert users[k] in rows;
      }
    }
  }

  /** With unique usernames, the account made by a sign-up signs in with the
      same username and password. */
  lemma SignUpThenSignIn(users: map<int, MUser>, n: int, kdf: (string, string) -> Key64,
                         accessToken: MUser -> string, refreshToken: MUser -> string,
                         id: int, password: string, salt: seq<byte>)
    requires forall k :: k in users ==> users[k].id == k && 0 <= k < n
    requires Unique(users)
    requires id in users && users[id].password == HashPassword(kdf, password, salt)
    ensures SignIn(users, n, kdf, accessToken, refreshToken, users[id].username, password)
      == Done(SignedIn(users[id], accessToken(users[id]), refreshToken(users[id])))
  {
    var rows := Feed.Rows(users, n, UserKey);
    assert users[id] in rows;
    var found := FindByName(rows, users[id].username);
    assert found == Some(users[id]);
    VerifyAcceptsOwnHash(kdf, password, salt);
  }
}
