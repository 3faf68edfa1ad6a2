# Authentication session core of ngx-admin, in Dafny

This project models the client-side authentication core of the ngx-admin
Angular dashboard and proves properties of that model:

- **Session store** (`Session`, class `Session.AuthService`). The bearer token
  and the user profile live in `localStorage`, a string-to-string map under the
  keys `authToken` and `user`; other keys (the theme switcher's) share that map.
  It covers `saveToken` (trim, then require that the trimmed token contains a dot
  and splits on `.` into three parts), `getToken` (the trimmed stored value, or
  nothing), `isAuthenticated`, `saveUser`, `getUser` (a profile that does not
  parse is removed) and `logout`. Pure functions on the map specify each
  operation, and the class methods perform them on a `storage` field.
- **Token decoding** (`TokenCodec` over `JsString`, `Base64`, `Utf8`,
  `UriComponent`). `decodeToken` splits the token, maps base64url to the
  standard alphabet, decodes with `atob` (the WHATWG forgiving-base64
  algorithm), percent-escapes each octet and applies `decodeURIComponent`.
  Every failure is `None`. The model proves the following:
  - the escape-and-decode trick is exactly strict UTF-8 decoding;
  - a token built from any dot-free header, the base64url encoding of any
    text's UTF-8 octets and any dot-free signature decodes to what
    `JSON.parse` makes of that text;
  - only the middle segment matters;
  - trimming a token never changes its claims.
- **Strategy** (`Strategy`, class `Strategy.ApiAuthStrategy`). This covers
  `login`/`register`, which save the token and a profile derived with
  JavaScript `||` chains, plus `logout`, `getToken`, `refreshToken`,
  `resetPassword` and `requestPassword`. Results are seen through the getters of
  Nebular's `NbAuthResult`: a non-array `errors`/`messages` argument becomes a
  one-element list, and falsy entries are dropped. That library is not part of
  this model. Its behaviour is assumed as stated.
- **Interceptor** (`Interceptor`). A request gets `Authorization: Bearer <token>`
  exactly when `getToken()` is truthy and the URL does not contain `/auth/`.
  Headers are keyed by their lower-cased names, as Angular's `HttpHeaders`
  looks them up, so the bearer header replaces an existing one in any spelling.

`JSON.parse` and `JSON.stringify` are parameters: `AuthService` holds them as
function-valued constants, and `None` stands for a throw. The back end's HTTP
answer to login or registration is a parameter (`Strategy.Answer`).

Some behaviours of the code are worth stating plainly:

- `saveToken` counts dots and nothing more (auth.service.ts:88), although the
  comment on line 86 speaks of validating the JWT format. So `".."`, with three
  empty parts, is accepted and stored (`Session.AcceptsEmptyParts`).
- `login` always redirects to `/pages` (auth.strategy.ts:48). It never calls
  `mfaStatus`, although the application declares `setup` and `verify` routes
  for two-factor authentication (src/app/core/auth/2fa/2fa.routes.ts).
- `register` stores the token from the response and redirects to `/pages`
  (auth.strategy.ts:81 and 100). This happens although the application has a
  `verify-email` page (app.route.ts:49). The declared response type of the
  registration call has no `accessToken` (auth.service.ts:37-42), so the model
  treats the token as optional.
- `resetPassword` and `requestPassword` always fail with "not implemented".
- The failure messages of `login`/`register` go into Nebular's `errors`
  argument, so `getMessages()` is empty and `getErrors()` holds the message.

Two consequences of the code are proved as lemmas:

- A sign-in whose token `saveToken` rejects is still a success redirected to
  `/pages`, and the token entry stays as it was (`Strategy.SignInWithRejectedToken`).
  Without an earlier session, no session is created. Over an earlier session,
  that session stays authenticated with the earlier token, even though the new
  user's profile has been saved.
- The back end's auth endpoints live under `/api/Auth/`. The interceptor's
  test is case-sensitive, so those requests do receive the token
  (`Interceptor.BackEndAuthEndpointsNotExcluded`).

## Model

| member | source | states |
|---|---|---|
| JsString.TrimStart | src/app/core/auth/auth.service.ts:87 | the result is the longest suffix not starting with white space; everything dropped is ECMAScript white space |
| JsString.TrimEnd | src/app/core/auth/auth.service.ts:87 | the result is the longest prefix not ending with white space; everything dropped is white space |
| JsString.Trim | src/app/core/auth/auth.service.ts:87 | `trim` removes leading and then trailing white space; its meaning is stated by `TrimSpec` |
| JsString.TrimSpec | src/app/core/auth/auth.service.ts:78 | `trim` keeps a contiguous piece with only white space on either side, and the piece has no white space at its ends |
| JsString.TrimIsTrimmed | src/app/core/auth/auth.service.ts:87 | a trimmed string has no white space at either end |
| JsString.TrimIdempotent | src/app/core/auth/auth.service.ts:78 | trimming twice is trimming once, so `getToken` re-trimming a saved token changes nothing |
| JsString.Split | src/app/core/auth/auth.service.ts:88 | `split('.')` gives one more part than there are dots, and no part holds a dot |
| JsString.JoinSplit | src/app/core/auth/auth.service.ts:111 | joining the parts of a split with the separator gives back the string |
| JsString.SplitJoin | src/app/core/auth/auth.service.ts:111 | splitting a join of separator-free parts gives back the parts |
| JsString.SplitPrepend | src/app/core/auth/auth.service.ts:111 | a dot-free prefix only lengthens the first part |
| JsString.CountAppend | src/app/core/auth/auth.service.ts:88 | dot counts add up over concatenation |
| JsString.Includes | src/app/core/auth/auth.interceptor.ts:9 | `includes` is true exactly when the substring occurs at some index, compared case-sensitively |
| JsString.ReplaceAll | src/app/core/auth/auth.service.ts:118 | a global one-character replace changes exactly the matching positions and keeps the length |
| Json.Or | src/app/core/auth/auth.strategy.ts:36 | JavaScript's or-operator gives its left operand when that is truthy and its right one otherwise; the result is truthy iff either operand is |
| Json.Member | src/app/core/auth/auth.strategy.ts:36-40 | `v?.key` is defined exactly when `v` is an object with own property `key`, and then is that property |
| Json.OfString | src/app/core/auth/auth.strategy.ts:88-91 | a submitted string is truthy iff it is defined and non-empty |
| Base64.ValueChar | src/app/core/auth/auth.service.ts:120 | every 6-bit value has an alphabet character whose value it is |
| Base64.RemoveAsciiWhiteSpace | src/app/core/auth/auth.service.ts:120 | `atob` first drops all ASCII white space and leaves white-space-free input alone |
| Base64.RemoveAsciiWhiteSpaceAppend | src/app/core/auth/auth.service.ts:120 | white-space removal distributes over concatenation |
| Base64.RemoveAsciiWhiteSpaceOne | src/app/core/auth/auth.service.ts:120 | a single character is dropped iff it is ASCII white space; with the previous row, every other character is kept in order |
| Base64.StripPadding | src/app/core/auth/auth.service.ts:120 | only a length that is a multiple of four loses anything, at most two characters, all of them `=`, and the rest is kept as a prefix |
| Base64.DecodeGroups | src/app/core/auth/auth.service.ts:120 | four characters give three octets, and a final two or three give one or two |
| Base64.Atob | src/app/core/auth/auth.service.ts:120 | `atob` succeeds iff the cleaned input is in the alphabet and its length is not 4k+1 |
| Base64.AtobIgnoresWhiteSpace | src/app/core/auth/auth.service.ts:120 | an ASCII white-space character anywhere in the input, even inside a group, does not change what `atob` returns |
| Base64.EncodeLengthMod4 | src/app/core/auth/auth.service.ts:120 | an unpadded encoding never has the length 4k+1 that `atob` rejects |
| Base64.DecodeEncode | src/app/core/auth/auth.service.ts:120 | decoding the groups of an unpadded encoding gives back the octets |
| Base64.AtobEncode | src/app/core/auth/auth.service.ts:117-120 | `atob` inverts unpadded base 64, the form of JWT segments |
| Base64.AtobBtoa | src/app/core/auth/auth.service.ts:120 | `atob` inverts padded base 64 |
| Utf8.DecodeFirst | src/app/core/auth/auth.service.ts:119-124 | one character is read from 1 to 4 octets; the count is 1 for ASCII, else the lead octet's leading ones |
| Utf8.Decode | src/app/core/auth/auth.service.ts:119-124 | strict UTF-8 decoding, character by character; `DecodeEncode` and `EncodeDecode` state that it inverts canonical encoding |
| Utf8.DecodeFirstEncodeChar | src/app/core/auth/auth.service.ts:119-124 | the octets of one character decode back to it |
| Utf8.DecodeEncode | src/app/core/auth/auth.service.ts:119-124 | strict UTF-8 decoding inverts encoding for every string |
| Utf8.EncodeDecode | src/app/core/auth/auth.service.ts:119-124 | whatever decodes is the canonical encoding of its text (no overlong forms, surrogates or values past U+10FFFF) |
| UriComponent.HexValueOfDigit | src/app/core/auth/auth.service.ts:122 | `decodeURIComponent` reads back each digit `toString(16)` writes |
| UriComponent.PercentEscapeDigits | src/app/core/auth/auth.service.ts:122 | for every octet the `'00'` padding and `slice(-2)` give `%` and exactly two digits, high nibble first |
| UriComponent.PercentEscape | src/app/core/auth/auth.service.ts:122 | the escape of one octet; `PercentEscapeDigits` states its form |
| UriComponent.PercentEscapeAll | src/app/core/auth/auth.service.ts:121-123 | the escaped string has three characters per octet |
| UriComponent.EscapedOctet | src/app/core/auth/auth.service.ts:119 | an escape is read only where `%` and two more characters are present |
| UriComponent.ReadContinuations | src/app/core/auth/auth.service.ts:119 | a successful read returns one octet per continuation escape |
| UriComponent.DecodeEscape | src/app/core/auth/auth.service.ts:119 | a decoded escape sequence is at least one escape long and fits in the input |
| UriComponent.DecodeUriComponent | src/app/core/auth/auth.service.ts:119 | `decodeURIComponent`; `DecodeEscapedIsUtf8` states what it does on escaped octets |
| UriComponent.EscapeAllAt | src/app/core/auth/auth.service.ts:121-123 | escape `j` of the escaped string holds octet `j`, and what follows is the escape of the rest |
| UriComponent.ReadContinuationsOfEscapes | src/app/core/auth/auth.service.ts:119-123 | on escaped octets, continuations are read exactly when the octets are 10xxxxxx, and they are those octets |
| UriComponent.DecodeEscapeOfEscapes | src/app/core/auth/auth.service.ts:119-123 | on escaped octets, one escape sequence decodes to the character UTF-8 decoding reads first |
| UriComponent.DecodeEscapedIsUtf8 | src/app/core/auth/auth.service.ts:119-124 | `decodeURIComponent` of the escaped octets succeeds exactly on well-formed UTF-8 and yields its text |
| TokenCodec.UrlToStandard | src/app/core/auth/auth.service.ts:118 | `-` becomes `+`, `_` becomes `/`, and every other character stays |
| TokenCodec.StandardToUrl | src/app/core/auth/auth.service.ts:118 | the opposite mapping, position by position |
| TokenCodec.Base64UrlEncode | src/app/core/auth/auth.service.ts:117-118 | a base64url segment has no dot, and mapping it back gives standard base 64 |
| TokenCodec.DecodeToken | src/app/core/auth/auth.service.ts:104-130 | claims are found only in a token with exactly two dots, and they are the parse of the text decoded from the middle segment; conversely a three-part token whose middle segment decodes (padded, with white space or in either alphabet) gives the parse of that text |
| TokenCodec.PayloadText | src/app/core/auth/auth.service.ts:117-124 | the text decoded from a payload segment; `PayloadTextIsUtf8` states that it is UTF-8 decoding of `atob` |
| TokenCodec.PayloadTextIsUtf8 | src/app/core/auth/auth.service.ts:117-124 | the payload text is the strict UTF-8 decoding of the segment's octets |
| TokenCodec.DecodeTokenReadsOnlyPayload | src/app/core/auth/auth.service.ts:111-117 | two three-part tokens with the same payload give the same claims |
| TokenCodec.DecodeTokenRoundTrip | src/app/core/auth/auth.service.ts:104-130 | header.base64url(UTF-8(text)).signature decodes to the parse of `text` |
| TokenCodec.TrimSurround | src/app/core/auth/auth.service.ts:87 | what `trim` removes from a token holds no dot |
| TokenCodec.SplitSurround | src/app/core/auth/auth.service.ts:111 | dot-free text around a three-part string extends only its first and last parts |
| TokenCodec.DecodeTokenOfTrimmed | src/app/core/auth/auth.strategy.ts:29-32 | decoding the raw token gives the same claims as decoding the trimmed one `saveToken` stores |
| Session.GetItem | src/app/core/auth/auth.service.ts:77 | `getItem` returns the stored value exactly when the key is present |
| Session.AcceptsToken | src/app/core/auth/auth.service.ts:82-91 | the acceptance test of `saveToken`; `AcceptsTokenIffTwoDots` states its meaning |
| Session.TokenOf | src/app/core/auth/auth.service.ts:76-79 | `getToken` has no result iff the entry is missing or empty; otherwise it is the trimmed entry |
| Session.Authenticated | src/app/core/auth/auth.service.ts:146-148 | `isAuthenticated` on a map; `AuthenticatedIff` states its meaning |
| Session.AuthenticatedIff | src/app/core/auth/auth.service.ts:146-148 | authenticated iff the token entry exists and is not all white space |
| Session.StoreToken | src/app/core/auth/auth.service.ts:81-94 | a rejected token leaves the store unchanged; an accepted one is stored trimmed; no other key changes |
| Session.StoreTokenThenToken | src/app/core/auth/auth.service.ts:76-94 | after an accepted save, `getToken` returns the trimmed token and the session is authenticated |
| Session.AcceptsTokenIffTwoDots | src/app/core/auth/auth.service.ts:82-91 | a token is accepted iff its trimmed form holds exactly two dots; the `includes` and emptiness tests add nothing |
| Session.AcceptsEmptyParts | src/app/core/auth/auth.service.ts:88 | `".."` is accepted and stored: the parts may be empty |
| Session.StoredTokenDecodesAlike | src/app/core/auth/auth.service.ts:87-93 | the stored token decodes to the same claims as the token received |
| Session.StoreUser | src/app/core/auth/auth.service.ts:96-102 | the serialized profile is written under `user` unless serializing failed, and no other key changes |
| Session.ReadUser | src/app/core/auth/auth.service.ts:132-144 | a missing or empty entry gives nothing; a parsable one gives its parse; an unparsable one gives nothing and is removed; no other key changes |
| Session.StoreUserThenReadUser | src/app/core/auth/auth.service.ts:96-144 | a saved profile whose text parses back is what `getUser` returns, with no change to the store |
| Session.ReadUserSelfHealing | src/app/core/auth/auth.service.ts:132-144 | a second `getUser` returns what the first did and changes nothing more |
| Session.ClearSession | src/app/core/auth/auth.service.ts:71-74 | logout removes both session keys, keeps every other key, and leaves the session unauthenticated |
| Session.AuthService.constructor | src/app/core/auth/auth.service.ts:59-61 | the service starts on the given storage with the runtime's JSON functions |
| Session.AuthService.GetToken | src/app/core/auth/auth.service.ts:76-79 | `getToken` on the service's storage, specified by `TokenOf` |
| Session.AuthService.IsAuthenticated | src/app/core/auth/auth.service.ts:146-148 | `isAuthenticated` on the service's storage, specified by `Authenticated` |
| Session.AuthService.SaveToken | src/app/core/auth/auth.service.ts:81-94 | the new storage is `StoreToken` of the old; after an accepted save, `getToken` returns the trimmed token |
| Session.AuthService.SaveUser | src/app/core/auth/auth.service.ts:96-102 | the new storage is `StoreUser` of the old with the stringified profile |
| Session.AuthService.GetUser | src/app/core/auth/auth.service.ts:132-144 | the returned profile and the new storage are those of `ReadUser` |
| Session.AuthService.Logout | src/app/core/auth/auth.service.ts:71-74 | the new storage is `ClearSession` of the old and the service is not authenticated |
| Strategy.Truthful | src/app/core/auth/auth.strategy.ts:45-51 | the entries `NbAuthResult`'s getters keep are exactly the truthy ones, and there are no more of them than in the argument; `TruthfulAppend` and `TruthfulOne` pin down order and duplicates |
| Strategy.TruthfulAppend | src/app/core/auth/auth.strategy.ts:45-51 | filtering distributes over concatenation, so the kept entries stay in their order |
| Strategy.TruthfulOne | src/app/core/auth/auth.strategy.ts:45-51 | one entry is kept exactly when it is truthy, so repeated truthy entries are all kept |
| Strategy.Listed | src/app/core/auth/auth.strategy.ts:58-64 | an array argument is kept as given; any other argument becomes a one-element list |
| Strategy.NewResult | src/app/core/auth/auth.strategy.ts:122 | the result keeps the success flag, payload and redirect, and its errors and messages are the listed arguments filtered to their truthy entries, in order and with repeats |
| Strategy.AccessToken | src/app/core/auth/auth.strategy.ts:29 | the token passed on is the response's access token when there is one, and is empty iff there is none or it is empty |
| Strategy.MissingTokenIgnored | src/app/core/auth/auth.strategy.ts:29-32 | a response without an access token stores nothing and decodes to no claims, just as an empty token does |
| Strategy.LoginProfile | src/app/core/auth/auth.strategy.ts:35-41 | the profile built from claims and submitted email; its meaning is stated by `ProfileWithoutClaims` and `ProfileEmailPrecedence` |
| Strategy.RegisterProfile | src/app/core/auth/auth.strategy.ts:87-93 | the registration profile; its meaning is stated by `RegisterProfileExtendsLogin` |
| Strategy.ProfileJson | src/app/core/auth/auth.strategy.ts:35-43 | the saved user object has exactly the defined profile properties, each readable back unchanged |
| Strategy.SignedInStore | src/app/core/auth/auth.strategy.ts:29-43 | after a sign-in, the token entry is what `saveToken` left; `user` holds the serialized profile; other keys are unchanged |
| Strategy.SignedInSession | src/app/core/auth/auth.strategy.ts:29-43 | a sign-in with an acceptable token authenticates with the trimmed token; otherwise the old token entry stays |
| Strategy.LoginErrorMessage | src/app/core/auth/auth.strategy.ts:54-57 | status 401 gives "Invalid email or password", else the server's truthy message, else "Login failed"; never falsy |
| Strategy.RegisterErrorMessage | src/app/core/auth/auth.strategy.ts:106 | the server's truthy message, else "Registration failed", whatever the status; never falsy |
| Strategy.LoginResult | src/app/core/auth/auth.strategy.ts:45-66 | success iff the server accepted; success redirects to `/pages` with one message; failure has no redirect and exactly one error |
| Strategy.RegisterResult | src/app/core/auth/auth.strategy.ts:97-115 | the same shape for registration, with its own message and error texts |
| Strategy.ProfileWithoutClaims | src/app/core/auth/auth.strategy.ts:32-41 | when the token does not decode, the profile holds only the submitted email |
| Strategy.ProfileEmailPrecedence | src/app/core/auth/auth.strategy.ts:36 | the `email` claim wins over `sub`, `sub` over the submitted email; the saved email is truthy iff one of them is |
| Strategy.RegisterProfileExtendsLogin | src/app/core/auth/auth.strategy.ts:87-93 | registration saves the login profile, with the submitted names filling in only missing name claims |
| Strategy.UnauthorizedMessages | src/app/core/auth/auth.strategy.ts:53-57 | example: a 401 hides the server's message from login, while registration passes it on |
| Strategy.SignInWithRejectedToken | src/app/core/auth/auth.strategy.ts:26-51 | for a token `saveToken` rejects, login and registration still succeed and redirect to `/pages`; the token entry, the token `getToken` reports and whether the session is authenticated all stay as before |
| Strategy.SignedInUserReadsBack | src/app/core/auth/auth.strategy.ts:43 | the profile saved at sign-in is what `getUser` returns next, when its JSON text parses back |
| Strategy.ApiAuthStrategy.constructor | src/app/core/auth/auth.strategy.ts:8-10 | the strategy is bound to the given `AuthService` |
| Strategy.ApiAuthStrategy.Login | src/app/core/auth/auth.strategy.ts:20-68 | the result is `LoginResult`; on failure the store is unchanged; on success it is `SignedInStore` with the profile from the decoded claims |
| Strategy.ApiAuthStrategy.Register | src/app/core/auth/auth.strategy.ts:70-117 | the result is `RegisterResult`; on failure the store is unchanged; on success it is `SignedInStore` with the registration profile |
| Strategy.ApiAuthStrategy.Logout | src/app/core/auth/auth.strategy.ts:119-124 | the session is cleared and unauthenticated; success, redirect `/auth/login`, one message |
| Strategy.ApiAuthStrategy.GetToken | src/app/core/auth/auth.strategy.ts:126-129 | the session's token as `getToken` reports it: the trimmed stored entry |
| Strategy.ApiAuthStrategy.RefreshToken | src/app/core/auth/auth.strategy.ts:131-135 | always success, redirect `/`, message "Token refreshed", no server call and no state change |
| Strategy.ApiAuthStrategy.ResetPassword | src/app/core/auth/auth.strategy.ts:137-141 | always a failure with no redirect and the message "Reset password not implemented" |
| Strategy.ApiAuthStrategy.RequestPassword | src/app/core/auth/auth.strategy.ts:143-147 | always a failure with no redirect and the message "Request password not implemented" |
| Interceptor.LowerAscii | src/app/core/auth/auth.interceptor.ts:11-15 | header names are lower-cased letter by letter, keeping the length |
| Interceptor.LowerAsciiIdempotent | src/app/core/auth/auth.interceptor.ts:11-15 | lower-casing a lower-cased name changes nothing, so the key `Authorization` is filed under is itself normalized |
| Interceptor.AttachesToken | src/app/core/auth/auth.interceptor.ts:9 | the interceptor's test; `InterceptSession` states its meaning for the stored token |
| Interceptor.Intercept | src/app/core/auth/auth.interceptor.ts:9-18 | the URL is kept; the `Authorization: Bearer` header is set, under its lower-cased name, when the token is truthy and the URL avoids `/auth/`; otherwise the request is passed on unchanged |
| Interceptor.InterceptReplacesAuthorization | src/app/core/auth/auth.interceptor.ts:11-15 | on headers keyed by lower-cased name, the result is still so keyed, and its only authorization header, in any spelling, is the bearer one |
| Interceptor.InterceptSession | src/app/core/auth/auth.interceptor.ts:7-15 | with the stored token, the header is set iff the session is authenticated and the URL avoids `/auth/`, and it carries the trimmed token |
| Interceptor.InterceptAfterSave | src/app/core/auth/auth.interceptor.ts:7-15 | after an accepted `saveToken`, requests outside `/auth/` carry `Bearer` plus the trimmed token |
| Interceptor.InterceptAfterLogout | src/app/core/auth/auth.interceptor.ts:7-9 | after logout every request is passed on unchanged |
| Interceptor.AuthPathsExcluded | src/app/core/auth/auth.interceptor.ts:9 | a URL containing `/auth/` never receives the header |
| Interceptor.BackEndAuthEndpointsNotExcluded | src/app/core/auth/auth.interceptor.ts:9 | `/api/Auth/login` does not contain `/auth/`, so it receives the header |

## Left out

- The HTTP methods of `AuthService` (`login`, `register`, `requestPassword`, `resetPassword`, `resendVerificationEmail`, the `mfa*` calls; auth.service.ts:63-69 and 150-176) are left out. They only post to the network. The back end's answer enters the model as `Strategy.Answer`, and the request bodies are not modelled.
- RxJS is left out. Observables, `pipe`, `map`, `catchError` and `of` become plain return values, and the HTTP result arrives as a parameter.
- `authenticate` (auth.strategy.ts:16-18) is not modelled separately. It is `login` under another name.
- `setup` (auth.strategy.ts:12-14) is left out. It only returns its configuration argument.
- Console logging is left out everywhere, including the interceptor's log line.
- The internals of `JSON.parse` and `JSON.stringify` are left out. They are parameters, and lemmas that need a round trip of the two take it as a precondition.
- Session.StoreToken: it does not model `localStorage.setItem` throwing (quota exceeded, storage disabled). The source does not catch that in `saveToken`, so the exception would reach the strategy's `catchError`; `saveUser`'s catch is modelled as a failed serialization.
- TokenCodec.DecodeToken: the `typeof token !== 'string'` guard is not modelled (the model's tokens are always strings, and an undefined access token is passed as `""`, which both `saveToken` and `decodeToken` reject alike). Neither are runtime type errors from non-string form fields or response fields.
- Strings are sequences of Unicode scalar values, not UTF-16 code units. `atob` yields only code units below 256, so octets map one to one. Decoded text can never hold a lone surrogate, and the model's UTF-8 decoder rejects surrogates as `decodeURIComponent` does.
- Json.Member: it reads only an object's own properties. Inherited properties of strings, arrays or `Object.prototype` under the names the model reads are not modelled.
- The result's `token` field of `NbAuthResult`, and the response body fields other than `accessToken`, are left out: the strategy never reads them.
- Interceptor.Request: the header names as first written, which `HttpHeaders` keeps for sending, are not modelled. Only the lower-cased lookup keys and their values are.
- `next(req)` in the interceptor, the rest of Angular's HTTP pipeline, the UI components, routes, application configuration, theme header and build script are not part of this model.
