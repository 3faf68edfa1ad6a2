/**
 * `NbApiAuthStrategy`: the Nebular authentication strategy that drives the
 * session. The HTTP round trip to the back end is a parameter, `Answer`: what
 * the server answered to the login or registration request. Each operation
 * returns an `AuthResult`, seen through its getters: Nebular's `NbAuthResult`
 * wraps a non-array `errors` or `messages` argument in a one-element list and
 * its getters drop the falsy entries.
 */
module Strategy {
  import opened Options
  import opened JsString
  import Json
  import TokenCodec
  import Session

  /** The fields of the login form the strategy reads (`data?.email`, `data?.password`). */
  datatype LoginData = LoginData(email: Option<string>, password: Option<string>)

  /** The fields of the registration form the strategy reads. */
  datatype RegisterData = RegisterData(email: Option<string>, password: Option<string>,
                                       firstName: Option<string>, lastName: Option<string>)

  /** The parts of the back end's success response the strategy reads. */
  datatype AuthResponse = AuthResponse(accessToken: Option<string>)

  /** An `HttpErrorResponse`: the status code and the parsed error body (`Null` when there is none). */
  datatype HttpError = HttpError(status: int, body: Json.Value)

  /** What the back end answered: an emitted response or an error caught by `catchError`. */
  datatype Answer = Accepted(response: AuthResponse) | Rejected(error: HttpError)

  /** The `response` slot of a result. */
  datatype Payload = NoPayload | Response(response: AuthResponse) | Failure(error: HttpError)

  /** An `NbAuthResult` as its getters report it. */
  datatype AuthResult = AuthResult(success: bool, payload: Payload, redirect: Option<string>,
                                   errors: seq<Json.Value>, messages: seq<Json.Value>)

  /** The truthy entries of a list. */
  function Truthful(items: seq<Json.Value>): (r: seq<Json.Value>)
    ensures |r| <= |items|
    ensures forall v :: v in r <==> v in items && Json.Truthy(Some(v))
  {
    if items == [] then []
    else if Json.Truthy(Some(items[0])) then [items[0]] + Truthful(items[1..])
    else Truthful(items[1..])
  }

  /** Filtering keeps the order of the entries: it distributes over concatenation. */
  lemma {:induction false} TruthfulAppend(a: seq<Json.Value>, b: seq<Json.Value>)
    ensures Truthful(a + b) == Truthful(a) + Truthful(b)
    decreases |a|
  {
    if a == [] {
      assert a + b == b;
    } else {
      assert (a + b)[0] == a[0] && (a + b)[1..] == a[1..] + b;
      TruthfulAppend(a[1..], b);
      if Json.Truthy(Some(a[0])) {
        assert [a[0]] + (Truthful(a[1..]) + Truthful(b)) == ([a[0]] + Truthful(a[1..])) + Truthful(b);
      }
    }
  }

  /** A single entry is kept exactly when it is truthy, so duplicates are kept too. */
  lemma TruthfulOne(v: Json.Value)
    ensures Truthful([v]) == if Json.Truthy(Some(v)) then [v] else []
  {
  }

  /** The list `NbAuthResult` keeps for an `errors` or `messages` argument: an array as it is, anything else as a one-element list. */
  function Listed(arg: Json.Value): seq<Json.Value> {
    if arg.Arr? then arg.items else [arg]
  }

  /** `new NbAuthResult(success, response, redirect, errors, messages)`, as its getters see it. */
  function NewResult(success: bool, payload: Payload, redirect: Option<string>,
                     errors: Json.Value, messages: Json.Value): (r: AuthResult)
    ensures r.success == success && r.payload == payload && r.redirect == redirect
    ensures r.errors == Truthful(Listed(errors)) && r.messages == Truthful(Listed(messages))
    ensures forall v :: v in r.errors <==> v in Listed(errors) && Json.Truthy(Some(v))
    ensures forall v :: v in r.messages <==> v in Listed(messages) && Json.Truthy(Some(v))
  {
    AuthResult(success, payload, redirect, Truthful(Listed(errors)), Truthful(Listed(messages)))
  }

  /** Undefined and `""` are treated alike by `saveToken` and `decodeToken` (both start with a `!token` test). */
  function AccessToken(response: AuthResponse): (token: string)
    ensures response.accessToken.Some? ==> token == response.accessToken.value
    ensures token == "" <==> response.accessToken.None? || response.accessToken.value == ""
  {
    response.accessToken.GetOr("")
  }

  /** A response without an access token is handled like an empty one: nothing is stored and nothing decodes. */
  lemma MissingTokenIgnored(m: map<string, string>, parse: string -> Option<Json.Value>)
    ensures Session.StoreToken(m, AccessToken(AuthResponse(None))) == m
    ensures TokenCodec.DecodeToken(AccessToken(AuthResponse(None)), parse) == None
  {
  }

  /** The user object saved after sign-in; `None` is an `undefined` property, which `JSON.stringify` leaves out. */
  datatype Profile = Profile(email: Option<Json.Value>, id: Option<Json.Value>,
                             firstName: Option<Json.Value>, lastName: Option<Json.Value>,
                             name: Option<Json.Value>)

  /** The profile `login` derives from the token claims and the submitted email. */
  function LoginProfile(claims: Option<Json.Value>, email: Option<string>): Profile {
    Profile(
      Json.Or(Json.Or(Json.Member(claims, "email"), Json.Member(claims, "sub")), Json.OfString(email)),
      Json.Or(Json.Member(claims, "sub"), Json.Member(claims, "nameid")),
      Json.Member(claims, "given_name"),
      Json.Member(claims, "family_name"),
      Json.Member(claims, "name"))
  }

  /** The profile `register` derives: as for `login`, with the submitted names as fallbacks. */
  function RegisterProfile(claims: Option<Json.Value>, data: RegisterData): Profile {
    Profile(
      Json.Or(Json.Or(Json.Member(claims, "email"), Json.Member(claims, "sub")), Json.OfString(data.email)),
      Json.Or(Json.Member(claims, "sub"), Json.Member(claims, "nameid")),
      Json.Or(Json.Member(claims, "given_name"), Json.OfString(data.firstName)),
      Json.Or(Json.Member(claims, "family_name"), Json.OfString(data.lastName)),
      Json.Member(claims, "name"))
  }

  function Put(fields: map<string, Json.Value>, key: string, v: Option<Json.Value>): (r: map<string, Json.Value>)
    ensures key in r <==> key in fields || v.Some?
    ensures v.Some? ==> r[key] == v.value
    ensures forall k :: k != key ==> (k in r <==> k in fields) && (k in r ==> r[k] == fields[k])
  {
    if v.Some? then fields[key := v.value] else fields
  }

  /** The user object as a JSON object: the defined properties and no others. */
  function ProfileJson(p: Profile): (r: Json.Value)
    ensures r.Obj?
    ensures forall key :: key in r.fields ==>
              key == "email" || key == "id" || key == "firstName" || key == "lastName" || key == "name"
    ensures Json.Member(Some(r), "email") == p.email && Json.Member(Some(r), "id") == p.id
    ensures Json.Member(Some(r), "firstName") == p.firstName && Json.Member(Some(r), "lastName") == p.lastName
    ensures Json.Member(Some(r), "name") == p.name
  {
    var f := Put(Put(Put(Put(Put(map[], "email", p.email), "id", p.id), "firstName", p.firstName),
                     "lastName", p.lastName), "name", p.name);
    Json.Obj(f)
  }

  /** The storage after a sign-in: the token saved by `saveToken`, then the profile saved by `saveUser`. */
  function SignedInStore(m: map<string, string>, token: string, profile: Profile,
                         stringify: Json.Value -> Option<string>): (m': map<string, string>)
    ensures Session.GetItem(m', Session.TokenKey) == Session.GetItem(Session.StoreToken(m, token), Session.TokenKey)
    ensures stringify(ProfileJson(profile)).Some? ==> Session.GetItem(m', Session.UserKey) == stringify(ProfileJson(profile))
    ensures stringify(ProfileJson(profile)).None? ==> Session.GetItem(m', Session.UserKey) == Session.GetItem(m, Session.UserKey)
    ensures forall k :: k != Session.TokenKey && k != Session.UserKey ==> Session.GetItem(m', k) == Session.GetItem(m, k)
  {
    Session.StoreUser(Session.StoreToken(m, token), stringify(ProfileJson(profile)))
  }

  /** A sign-in with a token `saveToken` accepts leaves an authenticated session holding the trimmed token; any other keeps the old token entry. */
  lemma SignedInSession(m: map<string, string>, token: string, profile: Profile, stringify: Json.Value -> Option<string>)
    ensures var m' := SignedInStore(m, token, profile, stringify);
            && (Session.AcceptsToken(token) ==> Session.TokenOf(m') == Some(Trim(token)) && Session.Authenticated(m'))
            && (!Session.AcceptsToken(token) ==> Session.GetItem(m', Session.TokenKey) == Session.GetItem(m, Session.TokenKey))
  {
    var m' := SignedInStore(m, token, profile, stringify);
    if Session.AcceptsToken(token) {
      Session.StoreTokenThenToken(m, token);
      assert Session.TokenOf(m') == Session.TokenOf(Session.StoreToken(m, token));
    }
  }

  /** The error `login` reports: a fixed text for status 401, else the server's message, else a fallback. */
  function LoginErrorMessage(e: HttpError): (r: Json.Value)
    ensures Json.Truthy(Some(r))
    ensures e.status == 401 ==> r == Json.Str("Invalid email or password")
    ensures e.status != 401 && Json.Truthy(Json.Member(Some(e.body), "message")) ==>
              Some(r) == Json.Member(Some(e.body), "message")
    ensures e.status != 401 && !Json.Truthy(Json.Member(Some(e.body), "message")) ==> r == Json.Str("Login failed")
  {
    if e.status == 401 then Json.Str("Invalid email or password")
    else Json.Or(Json.Member(Some(e.body), "message"), Some(Json.Str("Login failed"))).value
  }

  /** The error `register` reports: the server's message, else a fallback, whatever the status. */
  function RegisterErrorMessage(e: HttpError): (r: Json.Value)
    ensures Json.Truthy(Some(r))
    ensures Json.Truthy(Json.Member(Some(e.body), "message")) ==> Some(r) == Json.Member(Some(e.body), "message")
    ensures !Json.Truthy(Json.Member(Some(e.body), "message")) ==> r == Json.Str("Registration failed")
  {
    Json.Or(Json.Member(Some(e.body), "message"), Some(Json.Str("Registration failed"))).value
  }

  /** The result `login` returns for the server's answer. */
  function LoginResult(answer: Answer): (r: AuthResult)
    ensures r.success <==> answer.Accepted?
    ensures r.redirect == if answer.Accepted? then Some("/pages") else None
    ensures answer.Accepted? ==>
              r.payload == Response(answer.response) && r.errors == [] && r.messages == [Json.Str("Successfully logged in")]
    ensures answer.Rejected? ==>
              r.payload == Failure(answer.error) && r.errors == [LoginErrorMessage(answer.error)] && r.messages == []
  {
    match answer
    case Accepted(response) =>
      NewResult(true, Response(response), Some("/pages"), Json.Null, Json.Arr([Json.Str("Successfully logged in")]))
    case Rejected(error) =>
      NewResult(false, Failure(error), None, Json.Arr([LoginErrorMessage(error)]), Json.Null)
  }

  /** The result `register` returns for the server's answer. */
  function RegisterResult(answer: Answer): (r: AuthResult)
    ensures r.success <==> answer.Accepted?
    ensures r.redirect == if answer.Accepted? then Some("/pages") else None
    ensures answer.Accepted? ==>
              r.payload == Response(answer.response) && r.errors == [] && r.messages == [Json.Str("Successfully registered")]
    ensures answer.Rejected? ==>
              r.payload == Failure(answer.error) && r.errors == [RegisterErrorMessage(answer.error)] && r.messages == []
  {
    match answer
    case Accepted(response) =>
      NewResult(true, Response(response), Some("/pages"), Json.Null, Json.Arr([Json.Str("Successfully registered")]))
    case Rejected(error) =>
      NewResult(false, Failure(error), None, Json.Arr([RegisterErrorMessage(error)]), Json.Null)
  }

  /** A token that cannot be decoded leaves only the submitted email in the profile. */
  lemma ProfileWithoutClaims(email: Option<string>)
    ensures LoginProfile(None, email) == Profile(Json.OfString(email), None, None, None, None)
  {
  }

  /** The saved email is the token's `email` claim, else its `sub` claim, else the submitted email; it is truthy whenever one of them is. */
  lemma ProfileEmailPrecedence(claims: Option<Json.Value>, email: Option<string>)
    ensures var p := LoginProfile(claims, email);
            && (Json.Truthy(Json.Member(claims, "email")) ==> p.email == Json.Member(claims, "email"))
            && (!Json.Truthy(Json.Member(claims, "email")) && Json.Truthy(Json.Member(claims, "sub")) ==>
                  p.email == Json.Member(claims, "sub"))
            && (!Json.Truthy(Json.Member(claims, "email")) && !Json.Truthy(Json.Member(claims, "sub")) ==>
                  p.email == Json.OfString(email))
            && (Json.Truthy(p.email) <==> Json.Truthy(Json.Member(claims, "email")) || Json.Truthy(Json.Member(claims, "sub"))
                                          || (email.Some? && email.value != ""))
  {
  }

  /** `register` saves what `login` would, except that the submitted names fill in missing name claims. */
  lemma RegisterProfileExtendsLogin(claims: Option<Json.Value>, data: RegisterData)
    ensures var r := RegisterProfile(claims, data);
            var l := LoginProfile(claims, data.email);
            && r.email == l.email && r.id == l.id && r.name == l.name
            && (Json.Truthy(l.firstName) ==> r.firstName == l.firstName)
            && (!Json.Truthy(l.firstName) ==> r.firstName == Json.OfString(data.firstName))
            && (Json.Truthy(l.lastName) ==> r.lastName == l.lastName)
            && (!Json.Truthy(l.lastName) ==> r.lastName == Json.OfString(data.lastName))
  {
  }

  /** Example: a 401 hides the server's message from `login`, while `register` passes it on. */
  lemma UnauthorizedMessages()
    ensures var e := HttpError(401, Json.Obj(map["message" := Json.Str("Locked")]));
            LoginErrorMessage(e) == Json.Str("Invalid email or password") && RegisterErrorMessage(e) == Json.Str("Locked")
  {
  }

  /**
   * A sign-in whose token `saveToken` rejects is still reported as a success and
   * redirected to `/pages`, yet the token entry stays as it was: no session is
   * created, and an earlier session stays, with its earlier token, under the new profile.
   */
  lemma SignInWithRejectedToken(m: map<string, string>, response: AuthResponse, profile: Profile,
                                stringify: Json.Value -> Option<string>)
    requires !Session.AcceptsToken(AccessToken(response))
    ensures LoginResult(Accepted(response)).success && LoginResult(Accepted(response)).redirect == Some("/pages")
    ensures RegisterResult(Accepted(response)).success && RegisterResult(Accepted(response)).redirect == Some("/pages")
    ensures var m' := SignedInStore(m, AccessToken(response), profile, stringify);
            && Session.GetItem(m', Session.TokenKey) == Session.GetItem(m, Session.TokenKey)
            && Session.TokenOf(m') == Session.TokenOf(m)
            && (Session.Authenticated(m') <==> Session.Authenticated(m))
  {
    var m' := SignedInStore(m, AccessToken(response), profile, stringify);
    SignedInSession(m, AccessToken(response), profile, stringify);
    assert (Session.TokenKey in m') == (Session.TokenKey in m);
  }

  /** The profile a sign-in saves is what `getUser` returns next, when the runtime's JSON text parses back to it. */
  lemma SignedInUserReadsBack(m: map<string, string>, token: string, profile: Profile,
                              parse: string -> Option<Json.Value>, stringify: Json.Value -> Option<string>)
    requires stringify(ProfileJson(profile)).Some? && stringify(ProfileJson(profile)).value != ""
    requires parse(stringify(ProfileJson(profile)).value) == Some(ProfileJson(profile))
    ensures Session.ReadUser(SignedInStore(m, token, profile, stringify), parse).0 == Some(ProfileJson(profile))
  {
    var m' := SignedInStore(m, token, profile, stringify);
    assert Session.GetItem(m', Session.UserKey) == stringify(ProfileJson(profile));
  }

  /** `NbApiAuthStrategy`, bound to the application's `AuthService`. */
  class ApiAuthStrategy {
    const authService: Session.AuthService

    constructor(authService: Session.AuthService)
      ensures this.authService == authService
    {
      this.authService := authService;
    }

    /** `login(data)`, given the server's answer to the credentials. */
    method Login(data: LoginData, answer: Answer) returns (r: AuthResult)
      modifies authService
      ensures r == LoginResult(answer)
      ensures answer.Rejected? ==> authService.storage == old(authService.storage)
      ensures answer.Accepted? ==>
                var token := AccessToken(answer.response);
                authService.storage == SignedInStore(old(authService.storage), token,
                  LoginProfile(TokenCodec.DecodeToken(token, authService.parse), data.email), authService.stringify)
    {
      match answer
      case Accepted(response) =>
        var token := AccessToken(response);
        authService.SaveToken(token);
        var decodedToken := TokenCodec.DecodeToken(token, authService.parse);
        var user := LoginProfile(decodedToken, data.email);
        authService.SaveUser(ProfileJson(user));
        r := NewResult(true, Response(response), Some("/pages"), Json.Null, Json.Arr([Json.Str("Successfully logged in")]));
      case Rejected(error) =>
        var errorMessage := LoginErrorMessage(error);
        r := NewResult(false, Failure(error), None, Json.Arr([errorMessage]), Json.Null);
    }

    /** `register(data)`, given the server's answer to the registration. */
    method Register(data: RegisterData, answer: Answer) returns (r: AuthResult)
      modifies authService
      ensures r == RegisterResult(answer)
      ensures answer.Rejected? ==> authService.storage == old(authService.storage)
      ensures answer.Accepted? ==>
                var token := AccessToken(answer.response);
                authService.storage == SignedInStore(old(authService.storage), token,
                  RegisterProfile(TokenCodec.DecodeToken(token, authService.parse), data), authService.stringify)
    {
      match answer
      case Accepted(response) =>
        var token := AccessToken(response);
        authService.SaveToken(token);
        var decodedToken := TokenCodec.DecodeToken(token, authService.parse);
        var user := RegisterProfile(decodedToken, data);
        authService.SaveUser(ProfileJson(user));
        r := NewResult(true, Response(response), Some("/pages"), Json.Null, Json.Arr([Json.Str("Successfully registered")]));
      case Rejected(error) =>
        var errorMessage := RegisterErrorMessage(error);
        r := NewResult(false, Failure(error), None, Json.Arr([errorMessage]), Json.Null);
    }

    /** `logout()`: clears the session and sends the user to the login page. */
    method Logout() returns (r: AuthResult)
      modifies authService
      ensures authService.storage == Session.ClearSession(old(authService.storage))
      ensures !authService.IsAuthenticated()
      ensures r.success && r.payload == NoPayload && r.redirect == Some("/auth/login")
      ensures r.errors == [] && r.messages == [Json.Str("Successfully logged out")]
    {
      authService.Logout();
      r := NewResult(true, NoPayload, Some("/auth/login"), Json.Null, Json.Str("Successfully logged out"));
    }

    /** `getToken()`: the session's token as `AuthService` reports it. */
    method GetToken() returns (tokenString: Option<string>)
      ensures tokenString == Session.TokenOf(authService.storage)
      ensures tokenString.Some? ==> Session.TokenKey in authService.storage
                                    && tokenString.value == Trim(authService.storage[Session.TokenKey])
    {
      tokenString := authService.GetToken();
    }

    /** `refreshToken()`: reports success without contacting the server or touching the session. */
    method RefreshToken() returns (r: AuthResult)
      ensures r.success && r.payload == NoPayload && r.redirect == Some("/")
      ensures r.errors == [] && r.messages == [Json.Str("Token refreshed")]
    {
      r := NewResult(true, NoPayload, Some("/"), Json.Null, Json.Str("Token refreshed"));
    }

    /** `resetPassword()`: always fails. */
    method ResetPassword() returns (r: AuthResult)
      ensures !r.success && r.payload == NoPayload && r.redirect == None
      ensures r.errors == [] && r.messages == [Json.Str("Reset password not implemented")]
    {
      r := NewResult(false, NoPayload, None, Json.Null, Json.Str("Reset password not implemented"));
    }

    /** `requestPassword()`: always fails. */
    method RequestPassword() returns (r: AuthResult)
      ensures !r.success && r.payload == NoPayload && r.redirect == None
      ensures r.errors == [] && r.messages == [Json.Str("Request password not implemented")]
    {
      r := NewResult(false, NoPayload, None, Json.Null, Json.Str("Request password not implemented"));
    }
  }
}
