/**
 * The user collection and the three handlers that use it:
 * `/api/registration` (index.js:78-99), `/api/login` (index.js:102-121) and
 * `/api/getUserData` (index.js:125-149).
 *
 * The collection is a sequence of user documents in store order; `findOne`
 * returns the first match. Password hashing (`bcrypt.hash`), comparison
 * (`bcrypt.compare`), token signing (`jwt.sign`) and verification
 * (`jwt.verify`) are oracles passed as parameters. A fresh random salt per
 * call is modelled by the caller choosing the `hash` oracle for that call.
 */
module Accounts {
  import opened Wrappers
  import opened Auth

  /** A user document; `password` holds the digest, never the plaintext. */
  datatype User = User(firstName: string, lastName: string, email: string, password: string)

  /** `userCollection.findOne({email})`: the first user in store order with that email. */
  function FindByEmail(users: seq<User>, email: string): (r: Option<User>)
    ensures r.Some? ==> r.value in users && r.value.email == email
    ensures r.None? <==> forall u :: u in users ==> u.email != email
    decreases |users|
  {
    if users == [] then None
    else if users[0].email == email then Some(users[0])
    else FindByEmail(users[1..], email)
  }

  /** Appending a user changes the lookup only for an email nobody had before. */
  lemma {:induction false} FindByEmailAppend(users: seq<User>, u: User, email: string)
    ensures FindByEmail(users + [u], email)
            == if FindByEmail(users, email).Some? then FindByEmail(users, email)
               else if u.email == email then Some(u) else None
    decreases |users|
  {
    if users != [] {
      assert (users + [u])[1..] == users[1..] + [u];
      FindByEmailAppend(users[1..], u, email);
    }
  }

  /** At most one user per email. */
  ghost predicate UniqueEmails(users: seq<User>) {
    forall i, j :: 0 <= i < j < |users| ==> users[i].email != users[j].email
  }

  /** Under uniqueness the lookup finds the one user holding the email. */
  lemma {:induction false} FindByEmailUnique(users: seq<User>, u: User)
    requires UniqueEmails(users)
    requires u in users
    ensures FindByEmail(users, u.email) == Some(u)
    decreases |users|
  {
    if users[0] != u {
      assert users[0].email != u.email by {
        var k :| 0 <= k < |users| && users[k] == u;
      }
      assert u in users[1..];
      FindByEmailUnique(users[1..], u);
    }
  }

  /** Number of users holding `email`. */
  function CountEmail(users: seq<User>, email: string): nat
    decreases |users|
  {
    if users == [] then 0
    else (if users[0].email == email then 1 else 0) + CountEmail(users[1..], email)
  }

  lemma {:induction false} CountEmailAppend(users: seq<User>, u: User, email: string)
    ensures CountEmail(users + [u], email)
            == CountEmail(users, email) + if u.email == email then 1 else 0
    decreases |users|
  {
    if users != [] {
      assert (users + [u])[1..] == users[1..] + [u];
      CountEmailAppend(users[1..], u, email);
    }
  }

  lemma {:induction false} CountEmailZero(users: seq<User>, email: string)
    requires forall u :: u in users ==> u.email != email
    ensures CountEmail(users, email) == 0
    decreases |users|
  {
    if users != [] {
      assert users[0] in users;
      CountEmailZero(users[1..], email);
    }
  }

  /** `{status: "ok"}` or `{error: "User Exists"}`. */
  datatype RegistrationReply = RegistrationOk | UserExists

  /** The reply to a registration and the user collection after it. */
  datatype Registration = Registration(reply: RegistrationReply, users: seq<User>)

  /**
   * `/api/registration`: refused when a user with the email exists (the
   * collection is untouched), otherwise one user is appended with the
   * digest of the password.
   */
  function RegisterUser(users: seq<User>, firstName: string, lastName: string, email: string,
                        password: string, hash: string -> string): (r: Registration)
    ensures (exists u :: u in users && u.email == email) ==> r == Registration(UserExists, users)
    ensures (forall u :: u in users ==> u.email != email)
            ==> r == Registration(RegistrationOk, users + [User(firstName, lastName, email, hash(password))])
  {
    if FindByEmail(users, email).Some? then Registration(UserExists, users)
    else Registration(RegistrationOk, users + [User(firstName, lastName, email, hash(password))])
  }

  /** Registration keeps "at most one user per email". */
  lemma RegisterPreservesUniqueness(users: seq<User>, firstName: string, lastName: string, email: string,
                                    password: string, hash: string -> string)
    requires UniqueEmails(users)
    ensures UniqueEmails(RegisterUser(users, firstName, lastName, email, password, hash).users)
  {
    var r := RegisterUser(users, firstName, lastName, email, password, hash);
    if r.reply == RegistrationOk {
      forall i, j | 0 <= i < j < |r.users| ensures r.users[i].email != r.users[j].email {
        if j == |users| {
          assert r.users[i] == users[i];
          assert users[i] in users;
        }
      }
    }
  }

  /**
   * Registering the same email twice: the first call succeeds, the second
   * is refused and changes nothing, and the collection holds exactly one
   * user with that email.
   */
  lemma RegisterTwice(users: seq<User>, email: string,
                      first1: string, last1: string, password1: string, hash1: string -> string,
                      first2: string, last2: string, password2: string, hash2: string -> string)
    requires forall u :: u in users ==> u.email != email
    ensures var r1 := RegisterUser(users, first1, last1, email, password1, hash1);
            var r2 := RegisterUser(r1.users, first2, last2, email, password2, hash2);
            r1.reply == RegistrationOk && r2.reply == UserExists && r2.users == r1.users
            && CountEmail(r2.users, email) == 1
  {
    var r1 := RegisterUser(users, first1, last1, email, password1, hash1);
    var u := User(first1, last1, email, hash1(password1));
    assert u in r1.users;
    CountEmailAppend(users, u, email);
    CountEmailZero(users, email);
  }

  /**
   * `/api/login` replies: `{error: "User Not found"}`,
   * `{status: "error", error: "InvAlid Password"}` or
   * `{status: "ok", data: token}`.
   */
  datatype LoginReply = UserNotFound | InvalidPassword | LoginOk(token: string) {
    /** A successful login is sent after `res.status(201)`; the others with the default 200. */
    function HttpStatus(): nat {
      if LoginOk? then 201 else 200
    }
  }

  /**
   * `/api/login`: look the email up, compare the password with the stored
   * digest, and on success sign a token whose only claim is the user's email.
   * The `res.status(201)` test is always true, so its else branch is dead.
   */
  function LoginUser(users: seq<User>, email: string, password: string,
                     compare: (string, string) -> bool, sign: Claims -> string): (r: LoginReply)
    ensures r == UserNotFound <==> forall u :: u in users ==> u.email != email
    ensures r == InvalidPassword
            <==> FindByEmail(users, email).Some? && !compare(password, FindByEmail(users, email).value.password)
    ensures r.LoginOk?
            ==> && FindByEmail(users, email).Some?
                && compare(password, FindByEmail(users, email).value.password)
                && r.token == sign(Claims(FindByEmail(users, email).value.email))
                && r.token == sign(Claims(email))
  {
    match FindByEmail(users, email)
    case None => UserNotFound
    case Some(user) =>
      if compare(password, user.password) then LoginOk(sign(Claims(user.email))) else InvalidPassword
  }

  /**
   * A login reply goes out with status 201 exactly when the user exists and
   * the password compares equal to the stored digest; every other reply
   * keeps the default 200.
   */
  lemma LoginStatus(users: seq<User>, email: string, password: string,
                    compare: (string, string) -> bool, sign: Claims -> string)
    ensures var status := LoginUser(users, email, password, compare, sign).HttpStatus();
            && (status == 201
                <==> FindByEmail(users, email).Some? && compare(password, FindByEmail(users, email).value.password))
            && (status != 201 ==> status == 200)
  {
  }

  /** With unique emails, a stored user whose password compares equal logs in. */
  lemma LoginKnownUser(users: seq<User>, u: User, password: string,
                       compare: (string, string) -> bool, sign: Claims -> string)
    requires UniqueEmails(users) && u in users
    ensures compare(password, u.password) ==> LoginUser(users, u.email, password, compare, sign) == LoginOk(sign(Claims(u.email)))
    ensures !compare(password, u.password) ==> LoginUser(users, u.email, password, compare, sign) == InvalidPassword
  {
    FindByEmailUnique(users, u);
  }

  /** `/api/getUserData` replies: `{status: "error", data: "token expired"}` or `{status: "ok", data}`. */
  datatype UserDataReply = TokenExpired | UserData(user: Option<User>)

  /**
   * `/api/getUserData`: verify the token from the body (an absent or empty
   * token is refused by `jwt.verify` before any signature check), then look
   * the decoded email up; a miss answers `{status: "ok", data: null}`.
   */
  function GetUserData(users: seq<User>, token: Option<string>, verify: string -> Option<Claims>): (r: UserDataReply)
    ensures r == TokenExpired <==> token.None? || token.value == "" || verify(token.value).None?
    ensures r.UserData? && r.user.Some?
            ==> r.user.value in users && r.user.value.email == verify(token.value).value.email
    ensures r.UserData? && r.user.None?
            ==> forall u :: u in users ==> u.email != verify(token.value).value.email
  {
    if token.None? || token.value == "" then TokenExpired
    else
      match verify(token.value)
      case None => TokenExpired
      case Some(claims) => UserData(FindByEmail(users, claims.email))
  }

  /** The user collection, changed in place by registration's `insertOne`. */
  class UserStore {
    var users: seq<User>

    ghost predicate Valid()
      reads this
    {
      UniqueEmails(users)
    }

    constructor ()
      ensures Valid() && users == []
    {
      users := [];
    }

    /** `/api/registration` against this collection. */
    method Register(firstName: string, lastName: string, email: string, password: string,
                    hash: string -> string) returns (reply: RegistrationReply)
      requires Valid()
      modifies this
      ensures Valid()
      ensures reply == UserExists <==> exists u :: u in old(users) && u.email == email
      ensures reply == UserExists ==> users == old(users)
      ensures reply == RegistrationOk
              ==> users == old(users) + [User(firstName, lastName, email, hash(password))]
    {
      var r := RegisterUser(users, firstName, lastName, email, password, hash);
      RegisterPreservesUniqueness(users, firstName, lastName, email, password, hash);
      users := r.users;
      reply := r.reply;
    }
  }
}
