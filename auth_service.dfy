/**
 * The session half of `AuthService`: the bearer token and the user profile
 * kept in the browser's `localStorage`, a string-to-string map shared with the
 * rest of the application (the theme switcher keeps `selectedTheme` there).
 * The functions describe each operation on a map; the class `AuthService`
 * performs them on its `storage` field, step by step as the source does.
 */
module Session {
  import opened Options
  import opened JsString
  import Json
  import TokenCodec

  const TokenKey := "authToken"
  const UserKey := "user"

  /** `localStorage.getItem(key)`. */
  function GetItem(m: map<string, string>, key: string): (r: Option<string>)
    ensures r.Some? <==> key in m
    ensures r.Some? ==> r.value == m[key]
  {
    if key in m then Some(m[key]) else None
  }

  /** The validation of `saveToken`: a non-empty token whose trimmed form contains a dot and splits on `.` into three parts. */
  predicate AcceptsToken(token: string) {
    token != "" && Includes(Trim(token), ".") && |Split(Trim(token), '.')| == 3
  }

  /** `getToken()` on a storage map: the trimmed stored token, or `None` when the entry is missing or empty. */
  function TokenOf(m: map<string, string>): (r: Option<string>)
    ensures r.None? <==> TokenKey !in m || m[TokenKey] == ""
    ensures r.Some? ==> r.value == Trim(m[TokenKey]) && Trimmed(r.value)
  {
    match GetItem(m, TokenKey)
    case None => None
    case Some(t) =>
      if t == "" then None
      else
        TrimIsTrimmed(t);
        Some(Trim(t))
  }

  /** `isAuthenticated()`: the truthiness of `getToken()`. */
  predicate Authenticated(m: map<string, string>) {
    var t := TokenOf(m);
    t.Some? && t.value != ""
  }

  lemma AuthenticatedIff(m: map<string, string>)
    ensures Authenticated(m) <==> TokenKey in m && Trim(m[TokenKey]) != ""
  {
  }

  /** `saveToken(token)` on a storage map: an accepted token is written trimmed, anything else is ignored. */
  function StoreToken(m: map<string, string>, token: string): (m': map<string, string>)
    ensures !AcceptsToken(token) ==> m' == m
    ensures AcceptsToken(token) ==> TokenKey in m' && m'[TokenKey] == Trim(token)
    ensures forall k :: k != TokenKey ==> GetItem(m', k) == GetItem(m, k)
  {
    if AcceptsToken(token) then m[TokenKey := Trim(token)] else m
  }

  /** What `saveToken` writes, `getToken` reads back unchanged, and the session counts as authenticated. */
  lemma StoreTokenThenToken(m: map<string, string>, token: string)
    requires AcceptsToken(token)
    ensures TokenOf(StoreToken(m, token)) == Some(Trim(token))
    ensures Authenticated(StoreToken(m, token))
  {
    TrimIdempotent(token);
  }

  /** `saveUser(user)` on a storage map, given what `JSON.stringify(user)` gave (`None` when it or the write threw). */
  function StoreUser(m: map<string, string>, serialized: Option<string>): (m': map<string, string>)
    ensures serialized.None? ==> m' == m
    ensures serialized.Some? ==> GetItem(m', UserKey) == serialized
    ensures forall k :: k != UserKey ==> GetItem(m', k) == GetItem(m, k)
  {
    match serialized
    case Some(s) => m[UserKey := s]
    case None => m
  }

  /** `getUser()` on a storage map: the parsed profile and the map afterwards, from which an unparsable entry has been removed. */
  function ReadUser(m: map<string, string>, parse: string -> Option<Json.Value>): (r: (Option<Json.Value>, map<string, string>))
    ensures UserKey !in m || m[UserKey] == "" ==> r == (None, m)
    ensures UserKey in m && m[UserKey] != "" && parse(m[UserKey]).None? ==> r == (None, m - {UserKey})
    ensures UserKey in m && m[UserKey] != "" && parse(m[UserKey]).Some? ==> r == (parse(m[UserKey]), m)
    ensures forall k :: k != UserKey ==> GetItem(r.1, k) == GetItem(m, k)
  {
    match GetItem(m, UserKey)
    case None => (None, m)
    case Some(s) =>
      if s == "" then (None, m)
      else match parse(s)
        case Some(v) => (Some(v), m)
        case None => (None, m - {UserKey})
  }

  /** `logout()` on a storage map. */
  function ClearSession(m: map<string, string>): (m': map<string, string>)
    ensures TokenKey !in m' && UserKey !in m'
    ensures forall k :: k != TokenKey && k != UserKey ==> GetItem(m', k) == GetItem(m, k)
    ensures !Authenticated(m')
  {
    m - {TokenKey, UserKey}
  }

  lemma {:induction false} CountPositive(s: string, c: char)
    requires Count(s, c) > 0
    ensures exists k :: OccursAt(s, [c], k)
    decreases |s|
  {
    assert s != [];
    if s[0] == c {
      assert s[0..1] == [c];
      assert OccursAt(s, [c], 0);
    } else {
      CountPositive(s[1..], c);
      var k :| OccursAt(s[1..], [c], k);
      assert s[k + 1..k + 2] == s[1..][k..k + 1];
      assert OccursAt(s, [c], k + 1);
    }
  }

  /** The `includes('.')` and non-empty tests are implied by the split test: a token is accepted exactly when its trimmed form holds two dots. */
  lemma AcceptsTokenIffTwoDots(token: string)
    ensures AcceptsToken(token) <==> Count(Trim(token), '.') == 2
  {
    var clean := Trim(token);
    if Count(clean, '.') == 2 {
      CountPositive(clean, '.');
    }
  }

  /** Nothing requires the three parts to be non-empty: `".."` is accepted. */
  lemma AcceptsEmptyParts()
    ensures AcceptsToken("..")
    ensures StoreToken(map[], "..") == map[TokenKey := ".."]
  {
    assert Trim("..") == "..";
    assert OccursAt("..", ".", 0);
    assert Split("..", '.') == ["", "", ""];
  }

  /** The claims of the stored token are those of the token as the server sent it. */
  lemma StoredTokenDecodesAlike(m: map<string, string>, token: string, parse: string -> Option<Json.Value>)
    requires AcceptsToken(token)
    ensures TokenOf(StoreToken(m, token)).Some?
    ensures TokenCodec.DecodeToken(TokenOf(StoreToken(m, token)).value, parse) == TokenCodec.DecodeToken(token, parse)
  {
    StoreTokenThenToken(m, token);
    TokenCodec.DecodeTokenOfTrimmed(token, parse);
  }

  /** A profile saved as text that parses back is what `getUser()` returns next, and nothing changes. */
  lemma StoreUserThenReadUser(m: map<string, string>, serialized: string, user: Json.Value, parse: string -> Option<Json.Value>)
    requires serialized != "" && parse(serialized) == Some(user)
    ensures ReadUser(StoreUser(m, Some(serialized)), parse) == (Some(user), StoreUser(m, Some(serialized)))
  {
  }

  /** `getUser()` repairs the store once: a second call changes nothing more and finds no profile where the first found none. */
  lemma ReadUserSelfHealing(m: map<string, string>, parse: string -> Option<Json.Value>)
    ensures var (u, m') := ReadUser(m, parse);
            ReadUser(m', parse) == (u, m')
  {
  }

  /**
   * `AuthService`: the storage map and the two JSON functions of the runtime,
   * which the model takes as given (`None` where they throw).
   */
  class AuthService {
    var storage: map<string, string>
    const parse: string -> Option<Json.Value>
    const stringify: Json.Value -> Option<string>

    constructor(initial: map<string, string>, parse: string -> Option<Json.Value>, stringify: Json.Value -> Option<string>)
      ensures storage == initial && this.parse == parse && this.stringify == stringify
    {
      storage := initial;
      this.parse := parse;
      this.stringify := stringify;
    }

    function GetToken(): Option<string>
      reads this
    {
      TokenOf(storage)
    }

    predicate IsAuthenticated()
      reads this
    {
      Authenticated(storage)
    }

    method SaveToken(token: string)
      modifies this
      ensures storage == StoreToken(old(storage), token)
      ensures AcceptsToken(token) ==> GetToken() == Some(Trim(token))
    {
      if token == "" {
        return;
      }
      var cleanToken := Trim(token);
      if !Includes(cleanToken, ".") || |Split(cleanToken, '.')| != 3 {
        return;
      }
      storage := storage[TokenKey := cleanToken];
      StoreTokenThenToken(old(storage), token);
    }

    method SaveUser(user: Json.Value)
      modifies this
      ensures storage == StoreUser(old(storage), stringify(user))
    {
      var serialized := stringify(user);
      if serialized.Some? {
        storage := storage[UserKey := serialized.value];
      }
    }

    method GetUser() returns (user: Option<Json.Value>)
      modifies this
      ensures (user, storage) == ReadUser(old(storage), parse)
    {
      if UserKey !in storage || storage[UserKey] == "" {
        return None;
      }
      user := parse(storage[UserKey]);
      if user.None? {
        storage := storage - {UserKey};
      }
    }

    method Logout()
      modifies this
      ensures storage == ClearSession(old(storage))
      ensures !IsAuthenticated()
    {
      storage := storage - {TokenKey};
      storage := storage - {UserKey};
    }
  }
}
