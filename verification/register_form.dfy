/**
 * The registration form's submit handler: two checks made in the browser,
 * then the register call, the automatic login, storing the session and
 * going to the dashboard. What each backend call answers is a parameter.
 */
module RegisterForm {
  import opened Wrappers
  import AuthRouter

  /** What the handler does to the outside world, in order. */
  datatype Effect =
    | CallRegister(email: string, password: string)
    | CallLogin(email: string, password: string)
    | SaveSession(email: string, token: string)
    | Navigate(path: string)

  /** The effects of one submit and the error text left on screen ("" for none). */
  datatype Submitted = Submitted(effects: seq<Effect>, error: string)

  const Mismatch := "Passwords do not match"
  const TooShort := "Password must be at least 6 characters"
  const Fallback := "Failed to register"
  const Dashboard := "/dashboard"

  /**
   * JavaScript's `length` of a string: UTF-16 code units, so a character
   * outside the Basic Multilingual Plane counts twice.
   */
  function Utf16Length(s: string): (r: nat)
    ensures |s| <= r <= 2 * |s|
    ensures (forall i :: 0 <= i < |s| ==> (s[i] as int) < 0x1_0000) ==> r == |s|
  {
    if s == [] then 0
    else (if (s[0] as int) < 0x1_0000 then 1 else 2) + Utf16Length(s[1..])
  }

  /** `err.message || 'Failed to register'`. */
  function ShownError(message: string): (r: string)
    ensures r != []
    ensures message != [] ==> r == message
  {
    if message != [] then message else Fallback
  }

  /**
   * `handleSubmit`: different passwords are refused first, then a password
   * under 6 code units, both without any call. Otherwise the register call
   * is made; if it succeeds the login call follows, and if that succeeds
   * the session is stored with the token and the dashboard opens. A failing
   * call stops the sequence and shows its message.
   */
  function HandleSubmit(email: string, password: string, confirm: string,
                        registered: Result<(), string>, loggedIn: Result<string, string>): (r: Submitted)
    ensures r.effects == [] <==> password != confirm || Utf16Length(password) < 6
    ensures password != confirm ==> r == Submitted([], Mismatch)
    ensures password == confirm && Utf16Length(password) < 6 ==> r == Submitted([], TooShort)
    ensures r.effects != [] ==> r.effects[0] == CallRegister(email, password)
    ensures r.error == [] <==> r.effects != [] && registered.Success? && loggedIn.Success?
    ensures Navigate(Dashboard) in r.effects <==> r.effects != [] && registered.Success? && loggedIn.Success?
  {
    if password != confirm then Submitted([], Mismatch)
    else if Utf16Length(password) < 6 then Submitted([], TooShort)
    else match registered
      case Failure(message) => Submitted([CallRegister(email, password)], ShownError(message))
      case Success(_) =>
        var calls := [CallRegister(email, password), CallLogin(email, password)];
        match loggedIn
        case Failure(message) => Submitted(calls, ShownError(message))
        case Success(token) => Submitted(calls + [SaveSession(email, token), Navigate(Dashboard)], "")
  }

  /** When both calls succeed: register, log in, store the session, open the dashboard, in that order. */
  lemma SubmitSucceeds(email: string, password: string, token: string)
    requires Utf16Length(password) >= 6
    ensures HandleSubmit(email, password, password, Success(()), Success(token))
            == Submitted([CallRegister(email, password), CallLogin(email, password),
                          SaveSession(email, token), Navigate(Dashboard)], "")
  {
  }

  /** A failed registration makes no login call and shows the server's message. */
  lemma RegisterFailureStops(email: string, password: string, message: string, loggedIn: Result<string, string>)
    requires Utf16Length(password) >= 6
    ensures var r := HandleSubmit(email, password, password, Failure(message), loggedIn);
      r.effects == [CallRegister(email, password)] && r.error == ShownError(message)
      && forall e :: e in r.effects ==> !e.CallLogin?
  {
  }

  /**
   * The message `new Error(error.detail)` carries for a 422: there `detail`
   * is a list holding one object per invalid field, and an invalid address
   * is one field, so the text is that of one object.
   */
  const ObjectText := "[object Object]"

  /** The message the client makes of a refusal: `detail || otherwise`. */
  function ErrorMessage(e: AuthRouter.AuthError, otherwise: string): (m: string)
    ensures e.Unprocessable? ==> m == ObjectText
    ensures !e.Unprocessable? ==> m == if e.detail != [] then e.detail else otherwise
  {
    if e.Unprocessable? then ObjectText
    else if e.detail != [] then e.detail else otherwise
  }

  /**
   * `authAPI.register`: a refusal becomes an error whose message is the
   * server's `detail`, or "Registration failed" when that is empty.
   */
  function RegisterAnswer(r: Result<AuthRouter.Registered, AuthRouter.AuthError>): (a: Result<(), string>)
    ensures a.Success? <==> r.Success?
    ensures r.Failure? ==> a == Failure(ErrorMessage(r.error, "Registration failed"))
  {
    match r
    case Success(_) => Success(())
    case Failure(e) => Failure(ErrorMessage(e, "Registration failed"))
  }

  /** `authAPI.login`: the token, or the server's `detail` ("Login failed" when empty). */
  function LoginAnswer(r: Result<AuthRouter.Token, AuthRouter.AuthError>): (a: Result<string, string>)
    ensures a.Success? <==> r.Success?
    ensures r.Success? ==> a.value == r.value.accessToken
    ensures r.Failure? ==> a == Failure(ErrorMessage(r.error, "Login failed"))
  {
    match r
    case Success(t) => Success(t.accessToken)
    case Failure(e) => Failure(ErrorMessage(e, "Login failed"))
  }

  /**
   * Against the backend's routes: an address the validator accepts and no
   * user has under its validated form, and a password of 6 to 72
   * characters (all in the Basic Multilingual Plane) that the hash accepts,
   * ends on the dashboard with the token issued for the new user; the
   * session keeps the address as typed.
   */
  lemma RegisterAgainstServer(users: seq<AuthRouter.User>, email: string, password: string, hash: string, newId: int,
                              normalize: string -> Option<string>,
                              verify: (string, string) -> bool, issue: int -> string)
    requires 6 <= |password| <= 72 && forall i :: 0 <= i < |password| ==> (password[i] as int) < 0x1_0000
    requires normalize(email).Some? && forall u :: u in users ==> u.email != normalize(email).value
    requires verify(password, hash)
    ensures var reg := AuthRouter.Register(users, email, password, hash, newId, normalize);
      reg.Success?
      && HandleSubmit(email, password, password, RegisterAnswer(reg),
                      LoginAnswer(AuthRouter.Login(reg.value.users, email, password, normalize, verify, issue)))
         == Submitted([CallRegister(email, password), CallLogin(email, password),
                       SaveSession(email, issue(newId)), Navigate(Dashboard)], "")
  {
    AuthRouter.RegisterSucceedsIff(users, email, password, hash, newId, normalize);
    AuthRouter.RegisterThenLogin(users, email, password, hash, newId, email, normalize, verify, issue);
  }

  /**
   * An address whose validated form is already registered (the same
   * address, or one differing only where the validator normalises) is
   * refused by the server, whose message the form shows; no login follows.
   */
  lemma DuplicateEmailShown(users: seq<AuthRouter.User>, email: string, password: string, hash: string, newId: int,
                            normalize: string -> Option<string>, loggedIn: Result<string, string>)
    requires 6 <= |password| <= 72 && forall i :: 0 <= i < |password| ==> (password[i] as int) < 0x1_0000
    requires normalize(email).Some? && exists u :: u in users && u.email == normalize(email).value
    ensures HandleSubmit(email, password, password,
                         RegisterAnswer(AuthRouter.Register(users, email, password, hash, newId, normalize)), loggedIn)
            == Submitted([CallRegister(email, password)], AuthRouter.Taken)
  {
  }

  /** An address the validator refuses leaves the text of the 422's detail object on the form. */
  lemma InvalidEmailShown(users: seq<AuthRouter.User>, email: string, password: string, hash: string, newId: int,
                          normalize: string -> Option<string>, loggedIn: Result<string, string>)
    requires 6 <= |password| <= 72 && forall i :: 0 <= i < |password| ==> (password[i] as int) < 0x1_0000
    requires normalize(email).None?
    ensures HandleSubmit(email, password, password,
                         RegisterAnswer(AuthRouter.Register(users, email, password, hash, newId, normalize)), loggedIn)
            == Submitted([CallRegister(email, password)], ObjectText)
  {
  }

  /**
   * The browser and the server count a password's length differently: three
   * characters outside the Basic Multilingual Plane are 6 code units, so the
   * form lets the password through, and the server, counting characters,
   * refuses it as too short.
   */
  lemma LengthRulesDiffer(users: seq<AuthRouter.User>, email: string, hash: string, newId: int,
                          normalize: string -> Option<string>)
    requires normalize(email).Some?
    ensures var p := "\U{1F600}\U{1F600}\U{1F600}";
      && Utf16Length(p) == 6
      && AuthRouter.Register(users, email, p, hash, newId, normalize) == Failure(AuthRouter.BadRequest(AuthRouter.TooShort))
      && HandleSubmit(email, p, p, RegisterAnswer(AuthRouter.Register(users, email, p, hash, newId, normalize)), Failure(""))
         == Submitted([CallRegister(email, p)], TooShort)
  {
    var p := "\U{1F600}\U{1F600}\U{1F600}";
    assert p[1..][1..][1..] == [];
  }
}
