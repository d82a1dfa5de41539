/**
 * The backend's account routes over an abstract table of users. Hashing a
 * password, checking one against a hash and issuing a token happen in a
 * module this model does not see: they are parameters. So is the e-mail
 * validation the request models declare (`EmailStr`), which runs before a
 * route's body: `normalize` gives the address the route works with (the
 * validator lower-cases the domain, for instance), or `None` for an address
 * it refuses, which FastAPI answers with 422 before the route runs.
 */
module AuthRouter {
  import opened Wrappers

  datatype User = User(id: int, email: string, passwordHash: string)

  /** The HTTP errors the routes raise, with their `detail` text. */
  datatype AuthError =
    | BadRequest(detail: string)     // 400
    | Unauthorized(detail: string)   // 401
    | NotFound(detail: string)       // 404
    | Unprocessable                  // 422: the request body failed validation

  const TooLong := "Password must be 72 characters or less"
  const TooShort := "Password must be at least 6 characters"
  const Taken := "Email already registered"
  const BadLogin := "Incorrect email or password"

  /** The longest and shortest passwords accepted, in characters (bcrypt reads at most 72 bytes). */
  const MaxPassword := 72
  const MinPassword := 6

  /** No two users share an email, which `register` keeps true. */
  predicate UniqueEmails(users: seq<User>) {
    forall i, j :: 0 <= i < |users| && 0 <= j < |users| && users[i].email == users[j].email ==> i == j
  }

  /** `SELECT … WHERE email = %s` and `fetchone()`: the first user with the email. */
  function FindByEmail(users: seq<User>, email: string): (r: Option<User>)
    ensures r.Some? ==> r.value in users && r.value.email == email
    ensures r.None? <==> forall u :: u in users ==> u.email != email
  {
    if users == [] then None
    else if users[0].email == email then Some(users[0])
    else FindByEmail(users[1..], email)
  }

  /** The new table and the `UserResponse` of a registration. */
  datatype Registered = Registered(users: seq<User>, id: int, email: string)

  /**
   * POST /auth/register: an address the validator refuses is a 422 before
   * anything else; then a password over 72 characters is refused, then one
   * under 6, then an address already in the table; otherwise one user is
   * added, under the validated address, with the hash of the password
   * (`hash`, computed outside) and the id the database hands out (`newId`).
   */
  function Register(users: seq<User>, email: string, password: string, hash: string, newId: int,
                    normalize: string -> Option<string>): (r: Result<Registered, AuthError>)
    ensures normalize(email).None? <==> r == Failure(Unprocessable)
    ensures r == Failure(BadRequest(TooLong)) <==> normalize(email).Some? && |password| > MaxPassword
    ensures r == Failure(BadRequest(TooShort)) <==> normalize(email).Some? && |password| < MinPassword
    ensures r == Failure(BadRequest(Taken))
            <==> normalize(email).Some? && MinPassword <= |password| <= MaxPassword
                 && FindByEmail(users, normalize(email).value).Some?
    ensures r.Success? ==> var e := normalize(email).value;
      r.value == Registered(users + [User(newId, e, hash)], newId, e)
  {
    match normalize(email)
    case None => Failure(Unprocessable)
    case Some(e) =>
      if |password| > MaxPassword then Failure(BadRequest(TooLong))
      else if |password| < MinPassword then Failure(BadRequest(TooShort))
      else if FindByEmail(users, e).Some? then Failure(BadRequest(Taken))
      else Success(Registered(users + [User(newId, e, hash)], newId, e))
  }

  /**
   * A registration succeeds exactly for an address the validator accepts,
   * a password of 6 to 72 characters and a validated address no user has.
   */
  lemma RegisterSucceedsIff(users: seq<User>, email: string, password: string, hash: string, newId: int,
                            normalize: string -> Option<string>)
    ensures Register(users, email, password, hash, newId, normalize).Success?
            <==> && normalize(email).Some?
                 && MinPassword <= |password| <= MaxPassword
                 && forall u :: u in users ==> u.email != normalize(email).value
  {
  }

  /** A successful registration adds exactly one user, and emails stay unique. */
  lemma RegisterAddsOne(users: seq<User>, email: string, password: string, hash: string, newId: int,
                        normalize: string -> Option<string>)
    requires Register(users, email, password, hash, newId, normalize).Success?
    ensures var s := Register(users, email, password, hash, newId, normalize).value.users;
      && |s| == |users| + 1 && s[..|users|] == users && s[|users|].email == normalize(email).value
      && (UniqueEmails(users) ==> UniqueEmails(s))
  {
    var s := Register(users, email, password, hash, newId, normalize).value.users;
    assert forall i :: 0 <= i < |users| ==> users[i] in users;
  }

  /**
   * After a registration, any address the validator turns into the same
   * one (the same address with the domain in other letter case, say) is
   * refused as taken, whatever the password.
   */
  lemma RegisterTwice(users: seq<User>, e1: string, p1: string, h1: string, id1: int,
                      e2: string, p2: string, h2: string, id2: int, normalize: string -> Option<string>)
    requires Register(users, e1, p1, h1, id1, normalize).Success?
    requires normalize(e2) == normalize(e1)
    requires MinPassword <= |p2| <= MaxPassword
    ensures Register(Register(users, e1, p1, h1, id1, normalize).value.users, e2, p2, h2, id2, normalize)
            == Failure(BadRequest(Taken))
  {
    var s := Register(users, e1, p1, h1, id1, normalize).value.users;
    assert s[|users|] in s;
  }

  /** A bearer token. */
  datatype Token = Token(accessToken: string, tokenType: string)

  /**
   * POST /auth/login: an address the validator refuses is a 422; otherwise
   * the user with the validated address, if the password checks against
   * their hash (`verify`), gets a token for their id (`issue`), and anything
   * else gets the same 401.
   */
  function Login(users: seq<User>, email: string, password: string, normalize: string -> Option<string>,
                 verify: (string, string) -> bool, issue: int -> string): (r: Result<Token, AuthError>)
    ensures normalize(email).None? <==> r == Failure(Unprocessable)
    ensures r.Success? <==> && normalize(email).Some?
                            && FindByEmail(users, normalize(email).value).Some?
                            && verify(password, FindByEmail(users, normalize(email).value).value.passwordHash)
    ensures r.Failure? && normalize(email).Some? ==> r.error == Unauthorized(BadLogin)
    ensures r.Success? ==> r.value == Token(issue(FindByEmail(users, normalize(email).value).value.id), "bearer")
  {
    match normalize(email)
    case None => Failure(Unprocessable)
    case Some(e) =>
      match FindByEmail(users, e)
      case None => Failure(Unauthorized(BadLogin))
      case Some(u) =>
        if !verify(password, u.passwordHash) then Failure(Unauthorized(BadLogin))
        else Success(Token(issue(u.id), "bearer"))
  }

  /** An unknown address and a wrong password are answered identically. */
  lemma LoginFailuresAlike(users: seq<User>, unknown: string, known: string, wrong: string, any: string,
                           normalize: string -> Option<string>, verify: (string, string) -> bool, issue: int -> string)
    requires normalize(unknown).Some? && forall u :: u in users ==> u.email != normalize(unknown).value
    requires normalize(known).Some? && FindByEmail(users, normalize(known).value).Some?
    requires !verify(wrong, FindByEmail(users, normalize(known).value).value.passwordHash)
    ensures Login(users, unknown, any, normalize, verify, issue) == Login(users, known, wrong, normalize, verify, issue)
  {
  }

  /**
   * Right after registering, logging in with the same password, under the
   * address or any other the validator turns into the same one, gets a
   * token for the new id.
   */
  lemma RegisterThenLogin(users: seq<User>, email: string, password: string, hash: string, newId: int,
                          other: string, normalize: string -> Option<string>,
                          verify: (string, string) -> bool, issue: int -> string)
    requires Register(users, email, password, hash, newId, normalize).Success?
    requires verify(password, hash)
    requires normalize(other) == normalize(email)
    ensures var s := Register(users, email, password, hash, newId, normalize).value.users;
      Login(s, other, password, normalize, verify, issue) == Success(Token(issue(newId), "bearer"))
  {
    var s := Register(users, email, password, hash, newId, normalize).value.users;
    FindAppendNew(users, User(newId, normalize(email).value, hash));
  }

  lemma {:induction false} FindAppendNew(users: seq<User>, u: User)
    requires FindByEmail(users, u.email).None?
    ensures FindByEmail(users + [u], u.email) == Some(u)
  {
    if users == [] {
      assert users + [u] == [u];
    } else {
      assert (users + [u])[1..] == users[1..] + [u];
      FindAppendNew(users[1..], u);
    }
  }

  /** GET /auth/me: the user's id and email, or 404 "User not found". */
  function Me(users: seq<User>, id: int): (r: Result<(int, string), AuthError>)
    ensures r.Success? ==> exists u :: u in users && u.id == id && r.value == (id, u.email)
    ensures r.Failure? <==> forall u :: u in users ==> u.id != id
    ensures r.Failure? ==> r.error == NotFound("User not found")
  {
    if users == [] then Failure(NotFound("User not found"))
    else if users[0].id == id then Success((id, users[0].email))
    else Me(users[1..], id)
  }
}
