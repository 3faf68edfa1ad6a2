/**
 * `AuthService.decodeToken`: reads the claims of a JWT without checking its
 * signature. The token must be in JWS compact form (section 7.1 of RFC 7515):
 * three dot-separated segments. Only the middle one, the payload, is decoded:
 * base64url (section 5 of RFC 4648) is mapped to the standard alphabet, `atob`
 * turns it into octets, the percent-escape trick turns those into text, and
 * `JSON.parse` (a parameter of the model) reads the claims. Each failure is
 * `None`, which the source reports as `null`.
 */
module TokenCodec {
  import opened Options
  import opened Bytes
  import opened JsString
  import Json
  import Base64
  import Utf8
  import UriComponent

  /** `.replace(/-/g, '+').replace(/_/g, '/')`. */
  function UrlToStandard(s: string): (r: string)
    ensures |r| == |s|
    ensures forall i :: 0 <= i < |s| ==>
              r[i] == (if s[i] == '-' then '+' else if s[i] == '_' then '/' else s[i])
  {
    ReplaceAll(ReplaceAll(s, '-', '+'), '_', '/')
  }

  /** The opposite mapping, from the standard alphabet to base64url. */
  function StandardToUrl(s: string): (r: string)
    ensures |r| == |s|
    ensures forall i :: 0 <= i < |s| ==>
              r[i] == (if s[i] == '+' then '-' else if s[i] == '/' then '_' else s[i])
  {
    ReplaceAll(ReplaceAll(s, '+', '-'), '/', '_')
  }

  /** Unpadded base64url, as a JWT issuer writes each segment (section 2 of RFC 7515). */
  function Base64UrlEncode(b: seq<byte>): (r: string)
    ensures '.' !in r
    ensures UrlToStandard(r) == Base64.Encode(b)
  {
    var e := Base64.Encode(b);
    var r := StandardToUrl(e);
    assert forall i :: 0 <= i < |r| ==> r[i] != '.' by {
      forall i | 0 <= i < |r| ensures r[i] != '.' {
        assert Base64.IsBase64Char(e[i]);
      }
    }
    assert UrlToStandard(r) == e;
    r
  }

  /** The text of a payload segment: `atob`, the percent-escape map and `decodeURIComponent`. */
  function PayloadText(segment: string): Option<string> {
    match Base64.Atob(UrlToStandard(segment))
    case None => None
    case Some(octets) => UriComponent.DecodeUriComponent(UriComponent.PercentEscapeAll(octets))
  }

  /** `decodeToken(token)`, with `JSON.parse` given as `parse` (`None` where it throws). */
  function DecodeToken(token: string, parse: string -> Option<Json.Value>): (r: Option<Json.Value>)
    ensures r.Some? ==> Count(token, '.') == 2
    ensures r.Some? ==> exists text :: PayloadText(Split(token, '.')[1]) == Some(text) && parse(text) == r
    ensures |Split(token, '.')| == 3 && PayloadText(Split(token, '.')[1]).Some? ==>
              r == parse(PayloadText(Split(token, '.')[1]).value)
  {
    if token == "" then None
    else
      var parts := Split(token, '.');
      if |parts| != 3 then None
      else match PayloadText(parts[1])
        case None => None
        case Some(text) => parse(text)
  }

  /** The payload text is the strict UTF-8 decoding of the segment's octets. */
  lemma PayloadTextIsUtf8(segment: string)
    ensures PayloadText(segment) == match Base64.Atob(UrlToStandard(segment))
                                    case None => None
                                    case Some(octets) => Utf8.Decode(octets)
  {
    match Base64.Atob(UrlToStandard(segment))
    case None =>
    case Some(octets) => UriComponent.DecodeEscapedIsUtf8(octets);
  }

  /** Only the payload segment matters: tokens that agree on it decode alike, whatever their header and signature. */
  lemma DecodeTokenReadsOnlyPayload(t1: string, t2: string, parse: string -> Option<Json.Value>)
    requires |Split(t1, '.')| == 3 && |Split(t2, '.')| == 3
    requires Split(t1, '.')[1] == Split(t2, '.')[1]
    ensures DecodeToken(t1, parse) == DecodeToken(t2, parse)
  {
    assert t1 != "" && t2 != "";
  }

  lemma Join3(x: string, y: string, z: string, sep: char)
    ensures Join([x, y, z], sep) == x + [sep] + y + [sep] + z
  {
    assert [x, y, z][1..] == [y, z];
    assert [y, z][1..] == [z];
    assert Join([y, z], sep) == y + [sep] + z;
    assert x + [sep] + (y + [sep] + z) == x + [sep] + y + [sep] + z;
  }

  /** A token built from a header, an encoded payload and a signature decodes to the claims of the payload text. */
  lemma DecodeTokenRoundTrip(header: string, text: string, signature: string, parse: string -> Option<Json.Value>)
    requires '.' !in header && '.' !in signature
    ensures DecodeToken(header + "." + Base64UrlEncode(Utf8.Encode(text)) + "." + signature, parse) == parse(text)
  {
    var octets := Utf8.Encode(text);
    var payload := Base64UrlEncode(octets);
    var token := header + "." + payload + "." + signature;
    Join3(header, payload, signature, '.');
    SplitJoin([header, payload, signature], '.');
    assert Split(token, '.') == [header, payload, signature];
    Base64.AtobEncode(octets);
    PayloadTextIsUtf8(payload);
    Utf8.DecodeEncode(text);
  }

  lemma NoDotInWhiteSpace(w: string)
    requires AllWhiteSpace(w)
    ensures '.' !in w
  {
    assert forall k :: 0 <= k < |w| ==> w[k] != '.' by {
      forall k | 0 <= k < |w| ensures w[k] != '.' {
        assert IsWhiteSpace(w[k]);
      }
    }
  }

  lemma NoDotInConcat(x: string, y: string)
    requires '.' !in x && '.' !in y
    ensures '.' !in x + y
  {
    assert forall k :: 0 <= k < |x + y| ==> (x + y)[k] == (if k < |x| then x[k] else y[k - |x|]);
  }

  lemma ThreeSlices(t: string, i: nat, j: nat)
    requires i <= j <= |t|
    ensures t == t[..i] + t[i..j] + t[j..]
  {
    assert t[..j] == t[..i] + t[i..j];
  }

  /** What `trim` removes from a token holds no dot. */
  lemma TrimSurround(t: string) returns (a: string, z: string)
    ensures t == a + Trim(t) + z && '.' !in a && '.' !in z
  {
    var i, j := TrimSpec(t);
    a, z := t[..i], t[j..];
    ThreeSlices(t, i, j);
    NoDotInWhiteSpace(a);
    NoDotInWhiteSpace(z);
  }

  lemma Regroup(a: string, x: string, y: string, w: string, z: string, sep: char)
    ensures a + (x + [sep] + y + [sep] + w) + z == (a + x) + [sep] + y + [sep] + (w + z)
  {
  }

  /** Dot-free text around a three-part string only extends its first and last parts. */
  lemma SplitSurround(a: string, u: string, z: string)
    requires '.' !in a && '.' !in z && |Split(u, '.')| == 3
    ensures |Split(a + u + z, '.')| == 3 && Split(a + u + z, '.')[1] == Split(u, '.')[1]
  {
    var p := Split(u, '.');
    JoinSplit(u, '.');
    assert p == [p[0], p[1], p[2]];
    Join3(p[0], p[1], p[2], '.');
    Regroup(a, p[0], p[1], p[2], z, '.');
    Join3(a + p[0], p[1], p[2] + z, '.');
    assert '.' !in p[0] && '.' !in p[1] && '.' !in p[2];
    NoDotInConcat(a, p[0]);
    NoDotInConcat(p[2], z);
    SplitJoin([a + p[0], p[1], p[2] + z], '.');
  }

  lemma CountSurround(a: string, u: string, z: string)
    requires '.' !in a && '.' !in z
    ensures Count(a + u + z, '.') == Count(u, '.')
  {
    CountAppend(a, u, '.');
    CountAppend(a + u, z, '.');
    CountAbsent(a, '.');
    CountAbsent(z, '.');
  }

  /** Stray white space around a token never changes its claims: decoding the raw token equals decoding its trimmed form. */
  lemma DecodeTokenOfTrimmed(t: string, parse: string -> Option<Json.Value>)
    ensures DecodeToken(Trim(t), parse) == DecodeToken(t, parse)
  {
    var tt := Trim(t);
    var a, z := TrimSurround(t);
    if |Split(tt, '.')| == 3 {
      SplitSurround(a, tt, z);
      DecodeTokenReadsOnlyPayload(tt, t, parse);
    } else {
      CountSurround(a, tt, z);
    }
  }
}
