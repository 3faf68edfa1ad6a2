/**
 * `authInterceptor`: adds `Authorization: Bearer <token>` to every outgoing
 * request while a token is stored, except for requests whose URL contains
 * `/auth/` (a case-sensitive test). The request handed on to `next` is the
 * result; the rest of the HTTP pipeline is not part of this model.
 */
module Interceptor {
  import opened Options
  import opened JsString
  import Session

  /**
   * ASCII lower-casing. `HttpHeaders` lower-cases names with `toLowerCase`, which is full Unicode;
   * the two agree on the ASCII token characters HTTP field names are made of.
   */
  function LowerAscii(s: string): (r: string)
    ensures |r| == |s|
    ensures forall i :: 0 <= i < |s| ==> r[i] == if 'A' <= s[i] <= 'Z' then (s[i] as int + 32) as char else s[i]
  {
    if s == [] then []
    else [if 'A' <= s[0] <= 'Z' then (s[0] as int + 32) as char else s[0]] + LowerAscii(s[1..])
  }

  /** Headers keyed by their lower-cased names, as `HttpHeaders` looks them up. */
  predicate NormalizedHeaders(headers: map<string, string>) {
    forall k :: k in headers ==> LowerAscii(k) == k
  }

  /** The parts of an `HttpRequest` the interceptor reads or sets; `headers` is keyed by lower-cased name. */
  datatype Request = Request(url: string, headers: map<string, string>)

  /** Lower-casing twice is lower-casing once: lower-cased names are normalized. */
  lemma LowerAsciiIdempotent(s: string)
    ensures LowerAscii(LowerAscii(s)) == LowerAscii(s)
  {
  }

  const AuthorizationName := "Authorization"

  /** The key `setHeaders` files `Authorization` under. */
  const AuthorizationKey := LowerAscii(AuthorizationName)

  /** The interceptor's test: a truthy token and a URL without `/auth/`. */
  predicate AttachesToken(token: Option<string>, url: string) {
    token.Some? && token.value != "" && !Includes(url, "/auth/")
  }

  /** The request passed to `next`, given what `getToken()` returned. `setHeaders` files `Authorization` under its lower-cased name, replacing any header of that name in whatever case it was written. */
  function Intercept(token: Option<string>, req: Request): (r: Request)
    ensures r.url == req.url
    ensures AttachesToken(token, req.url) ==> r.headers == req.headers[AuthorizationKey := "Bearer " + token.value]
    ensures !AttachesToken(token, req.url) ==> r == req
  {
    if token.Some? && token.value != "" && !Includes(req.url, "/auth/") then
      req.(headers := req.headers[AuthorizationKey := "Bearer " + token.value])
    else req
  }

  /** A request that already carries an authorization header, in any spelling, leaves with one: the bearer token. */
  lemma InterceptReplacesAuthorization(token: Option<string>, req: Request)
    requires NormalizedHeaders(req.headers) && AttachesToken(token, req.url)
    ensures NormalizedHeaders(Intercept(token, req).headers)
    ensures forall k :: k in Intercept(token, req).headers && LowerAscii(k) == AuthorizationKey ==>
              k == AuthorizationKey && Intercept(token, req).headers[k] == "Bearer " + token.value
  {
    LowerAsciiIdempotent(AuthorizationName);
  }

  /** With the token read from storage: the header is set exactly when the session is authenticated and the URL avoids `/auth/`, and it carries the trimmed stored token. */
  lemma InterceptSession(m: map<string, string>, req: Request)
    ensures AttachesToken(Session.TokenOf(m), req.url) <==> Session.Authenticated(m) && !Includes(req.url, "/auth/")
    ensures AttachesToken(Session.TokenOf(m), req.url) ==>
              Intercept(Session.TokenOf(m), req).headers[AuthorizationKey] == "Bearer " + Trim(m[Session.TokenKey])
  {
  }

  /** After `saveToken` accepts a token, requests outside `/auth/` carry it, trimmed. */
  lemma InterceptAfterSave(m: map<string, string>, token: string, req: Request)
    requires Session.AcceptsToken(token) && !Includes(req.url, "/auth/")
    ensures Intercept(Session.TokenOf(Session.StoreToken(m, token)), req).headers[AuthorizationKey] == "Bearer " + Trim(token)
  {
    Session.StoreTokenThenToken(m, token);
  }

  /** After logout no request is given a header. */
  lemma InterceptAfterLogout(m: map<string, string>, req: Request)
    ensures Intercept(Session.TokenOf(Session.ClearSession(m)), req) == req
  {
  }

  /** Requests under `/auth/` never receive the token. */
  lemma AuthPathsExcluded(token: Option<string>, prefix: string, suffix: string, headers: map<string, string>)
    ensures Intercept(token, Request(prefix + "/auth/" + suffix, headers)) == Request(prefix + "/auth/" + suffix, headers)
  {
    var url := prefix + "/auth/" + suffix;
    assert url[|prefix|..|prefix| + 6] == "/auth/";
    assert OccursAt(url, "/auth/", |prefix|);
  }

  /** The test is case-sensitive: the back end's own `/api/Auth/` endpoints do receive the token. */
  lemma BackEndAuthEndpointsNotExcluded(token: string, headers: map<string, string>)
    requires token != ""
    ensures !Includes("/api/Auth/login", "/auth/")
    ensures Intercept(Some(token), Request("/api/Auth/login", headers)).headers[AuthorizationKey] == "Bearer " + token
  {
    assert !Includes("/api/Auth/login", "/auth/") by {
      forall i | 0 <= i && i + 6 <= 15
        ensures !OccursAt("/api/Auth/login", "/auth/", i)
      {
        var u := "/api/Auth/login";
        assert u[i..i + 6] != "/auth/" by {
          assert u[i..i + 6][1] == u[i + 1];
          assert u[i..i + 6][0] == u[i];
          assert u[i..i + 6][2] == u[i + 2];
        }
      }
    }
  }
}
