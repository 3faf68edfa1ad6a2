/**
 * Base 64 as the browser's `atob` decodes it: the forgiving-base64 decode of the
 * WHATWG Infra standard over the standard alphabet of section 4 of RFC 4648
 * (ASCII white space is skipped, one or two trailing `=` are dropped when the
 * length is a multiple of four, and the pad bits of a short final group are
 * ignored). An encoder is given beside it as the reference the decoder inverts.
 */
module Base64 {
  import opened Options
  import opened Bytes

  predicate IsAsciiWhiteSpace(c: char) {
    c == '\t' || c == '\n' || c == '\U{000C}' || c == '\r' || c == ' '
  }

  predicate IsBase64Char(c: char) {
    ('A' <= c <= 'Z') || ('a' <= c <= 'z') || ('0' <= c <= '9') || c == '+' || c == '/'
  }

  predicate AllBase64(s: string) {
    forall i :: 0 <= i < |s| ==> IsBase64Char(s[i])
  }

  /** The 6-bit value of an alphabet character. */
  function CharValue(c: char): (v: nat)
    requires IsBase64Char(c)
    ensures v < 64
  {
    if 'A' <= c <= 'Z' then c as int - 'A' as int
    else if 'a' <= c <= 'z' then c as int - 'a' as int + 26
    else if '0' <= c <= '9' then c as int - '0' as int + 52
    else if c == '+' then 62
    else 63
  }

  /** The alphabet character of a 6-bit value; `CharValue` inverts it. */
  function ValueChar(v: nat): (c: char)
    requires v < 64
    ensures IsBase64Char(c) && CharValue(c) == v
  {
    if v < 26 then ('A' as int + v) as char
    else if v < 52 then ('a' as int + v - 26) as char
    else if v < 62 then ('0' as int + v - 52) as char
    else if v == 62 then '+'
    else '/'
  }

  /** Step 1 of forgiving-base64 decode: drop ASCII white space. */
  function RemoveAsciiWhiteSpace(s: string): (r: string)
    ensures forall i :: 0 <= i < |r| ==> !IsAsciiWhiteSpace(r[i])
    ensures (forall i :: 0 <= i < |s| ==> !IsAsciiWhiteSpace(s[i])) ==> r == s
  {
    if s == [] then []
    else if IsAsciiWhiteSpace(s[0]) then RemoveAsciiWhiteSpace(s[1..])
    else [s[0]] + RemoveAsciiWhiteSpace(s[1..])
  }

  /** White space is dropped piece by piece: removal distributes over concatenation. */
  lemma {:induction false} RemoveAsciiWhiteSpaceAppend(x: string, y: string)
    ensures RemoveAsciiWhiteSpace(x + y) == RemoveAsciiWhiteSpace(x) + RemoveAsciiWhiteSpace(y)
  {
    if x == [] {
      assert x + y == y;
    } else {
      var xy := x + y;
      assert xy[0] == x[0] && xy[1..] == x[1..] + y;
      RemoveAsciiWhiteSpaceAppend(x[1..], y);
      if !IsAsciiWhiteSpace(x[0]) {
        var rx, ry := RemoveAsciiWhiteSpace(x[1..]), RemoveAsciiWhiteSpace(y);
        assert [x[0]] + (rx + ry) == ([x[0]] + rx) + ry;
      }
    }
  }

  /** The other characters are kept, in order: one character is dropped exactly when it is white space. */
  lemma RemoveAsciiWhiteSpaceOne(c: char)
    ensures RemoveAsciiWhiteSpace([c]) == if IsAsciiWhiteSpace(c) then [] else [c]
  {
    assert [c][1..] == [];
  }

  /** Step 2: when the length is a multiple of four, drop one or two trailing `=`. */
  function StripPadding(d: string): (r: string)
    ensures |d| - 2 <= |r| <= |d| && r == d[..|r|]
    ensures forall i :: |r| <= i < |d| ==> d[i] == '='
    ensures |d| % 4 != 0 ==> r == d
  {
    if |d| % 4 == 0 && |d| >= 2 && d[|d| - 2..] == "==" then d[..|d| - 2]
    else if |d| % 4 == 0 && |d| >= 1 && d[|d| - 1] == '=' then d[..|d| - 1]
    else d
  }

  /** The octets of a group of two, three or four characters. */
  function Byte0(c0: char, c1: char): byte
    requires IsBase64Char(c0) && IsBase64Char(c1)
  {
    CharValue(c0) * 4 + CharValue(c1) / 16
  }

  function Byte1(c1: char, c2: char): byte
    requires IsBase64Char(c1) && IsBase64Char(c2)
  {
    (CharValue(c1) % 16) * 16 + CharValue(c2) / 4
  }

  function Byte2(c2: char, c3: char): byte
    requires IsBase64Char(c2) && IsBase64Char(c3)
  {
    (CharValue(c2) % 4) * 64 + CharValue(c3)
  }

  /** Step 5: every four characters give three octets; a final two give one and a final three give two. */
  function DecodeGroups(d: string): (r: seq<byte>)
    requires AllBase64(d) && |d| % 4 != 1
    ensures |r| == 3 * (|d| / 4) + (if |d| % 4 == 0 then 0 else |d| % 4 - 1)
  {
    if |d| == 0 then []
    else if |d| == 2 then [Byte0(d[0], d[1])]
    else if |d| == 3 then [Byte0(d[0], d[1]), Byte1(d[1], d[2])]
    else [Byte0(d[0], d[1]), Byte1(d[1], d[2]), Byte2(d[2], d[3])] + DecodeGroups(d[4..])
  }

  /** `atob`: `None` where the browser throws `InvalidCharacterError`. */
  function Atob(s: string): (r: Option<seq<byte>>)
    ensures var d := StripPadding(RemoveAsciiWhiteSpace(s));
            r.Some? <==> |d| % 4 != 1 && AllBase64(d)
  {
    var d := StripPadding(RemoveAsciiWhiteSpace(s));
    if |d| % 4 == 1 || !AllBase64(d) then None else Some(DecodeGroups(d))
  }

  /** White space anywhere in the input, even inside a group, does not change what `atob` returns. */
  lemma AtobIgnoresWhiteSpace(x: string, w: char, y: string)
    requires IsAsciiWhiteSpace(w)
    ensures Atob(x + [w] + y) == Atob(x + y)
  {
    RemoveAsciiWhiteSpaceAppend(x + [w], y);
    RemoveAsciiWhiteSpaceAppend(x, [w]);
    RemoveAsciiWhiteSpaceAppend(x, y);
    RemoveAsciiWhiteSpaceOne(w);
    assert RemoveAsciiWhiteSpace(x) + [] == RemoveAsciiWhiteSpace(x);
  }

  /** The four characters of a full group of three octets. */
  function EncodeGroup(b0: byte, b1: byte, b2: byte): (r: string)
    ensures |r| == 4 && AllBase64(r)
  {
    [ValueChar(b0 / 4), ValueChar((b0 % 4) * 16 + b1 / 16), ValueChar((b1 % 16) * 4 + b2 / 64), ValueChar(b2 % 64)]
  }

  /** Base 64 without padding, the form JWS uses for its segments (section 2 of RFC 7515). */
  function Encode(b: seq<byte>): (r: string)
    ensures AllBase64(r)
  {
    if |b| == 0 then []
    else if |b| == 1 then EncodeGroup(b[0], 0, 0)[..2]
    else if |b| == 2 then EncodeGroup(b[0], b[1], 0)[..3]
    else EncodeGroup(b[0], b[1], b[2]) + Encode(b[3..])
  }

  /** Padded base 64, as `btoa` writes it (section 4 of RFC 4648). */
  function Btoa(b: seq<byte>): string {
    Encode(b) + (if |b| % 3 == 1 then "==" else if |b| % 3 == 2 then "=" else "")
  }

  /** The octets of a group come back from its characters. */
  lemma GroupRoundTrip(b0: byte, b1: byte, b2: byte)
    ensures var g := EncodeGroup(b0, b1, b2);
            Byte0(g[0], g[1]) == b0 && Byte1(g[1], g[2]) == b1 && Byte2(g[2], g[3]) == b2
  {
  }

  lemma DecodeOne(b0: byte)
    ensures DecodeGroups(Encode([b0])) == [b0]
  {
    var g := EncodeGroup(b0, 0, 0);
    GroupRoundTrip(b0, 0, 0);
    assert Encode([b0]) == g[..2];
  }

  lemma DecodeTwo(b0: byte, b1: byte)
    ensures DecodeGroups(Encode([b0, b1])) == [b0, b1]
  {
    var g := EncodeGroup(b0, b1, 0);
    GroupRoundTrip(b0, b1, 0);
    assert Encode([b0, b1]) == g[..3];
  }

  lemma DecodeGroupsCons(b0: byte, b1: byte, b2: byte, rest: string)
    requires AllBase64(rest) && |rest| % 4 != 1
    ensures AllBase64(EncodeGroup(b0, b1, b2) + rest)
    ensures DecodeGroups(EncodeGroup(b0, b1, b2) + rest) == [b0, b1, b2] + DecodeGroups(rest)
  {
    var g := EncodeGroup(b0, b1, b2);
    var e := g + rest;
    GroupRoundTrip(b0, b1, b2);
    assert e[0] == g[0] && e[1] == g[1] && e[2] == g[2] && e[3] == g[3];
    assert e[4..] == rest;
  }

  lemma EncodeCons(b: seq<byte>)
    requires |b| >= 3
    ensures Encode(b) == EncodeGroup(b[0], b[1], b[2]) + Encode(b[3..])
  {
  }

  lemma ShiftedRemainders(n: nat, k: nat)
    ensures (n + 4) % 4 == n % 4 && (k + 3) % 3 == k % 3
  {
  }

  /** An unpadded encoding never has a length of the form 4k + 1, which `atob` would reject. */
  lemma {:induction false} EncodeLengthMod4(b: seq<byte>)
    ensures |Encode(b)| % 4 == (if |b| % 3 == 0 then 0 else |b| % 3 + 1)
  {
    if |b| >= 3 {
      var tail := b[3..];
      EncodeLengthMod4(tail);
      EncodeCons(b);
      ShiftedRemainders(|Encode(tail)|, |tail|);
      assert |Encode(b)| == |Encode(tail)| + 4;
      assert |b| == |tail| + 3;
    }
  }

  lemma DecodeEncodeStep(b: seq<byte>, rest: string)
    requires |b| >= 3 && rest == Encode(b[3..])
    requires AllBase64(rest) && |rest| % 4 != 1
    requires DecodeGroups(rest) == b[3..]
    ensures AllBase64(Encode(b)) && |Encode(b)| % 4 != 1
    ensures DecodeGroups(Encode(b)) == b
  {
    EncodeCons(b);
    DecodeGroupsCons(b[0], b[1], b[2], rest);
    assert b == [b[0], b[1], b[2]] + b[3..];
  }

  /** Decoding undoes encoding. */
  lemma {:induction false} DecodeEncode(b: seq<byte>)
    ensures |Encode(b)| % 4 != 1
    ensures DecodeGroups(Encode(b)) == b
  {
    EncodeLengthMod4(b);
    if |b| == 1 {
      DecodeOne(b[0]);
      assert b == [b[0]];
    } else if |b| == 2 {
      DecodeTwo(b[0], b[1]);
      assert b == [b[0], b[1]];
    } else if |b| >= 3 {
      DecodeEncode(b[3..]);
      DecodeEncodeStep(b, Encode(b[3..]));
    }
  }

  /** Text in the alphabet is left alone by the white-space and padding steps. */
  lemma CleanupKeepsAlphabet(e: string)
    requires AllBase64(e)
    ensures StripPadding(RemoveAsciiWhiteSpace(e)) == e
  {
    assert forall i :: 0 <= i < |e| ==> !IsAsciiWhiteSpace(e[i]);
    assert RemoveAsciiWhiteSpace(e) == e;
    if |e| >= 2 {
      assert e[|e| - 2..][1] == e[|e| - 1];
    }
  }

  /** `atob` inverts the unpadded encoding. */
  lemma AtobEncode(b: seq<byte>)
    ensures Atob(Encode(b)) == Some(b)
  {
    EncodeLengthMod4(b);
    CleanupKeepsAlphabet(Encode(b));
    DecodeEncode(b);
  }

  lemma StripTwo(e: string)
    requires AllBase64(e) && |e| % 4 == 2
    ensures StripPadding(e + "==") == e
  {
    var p := e + "==";
    assert p[|p| - 2..] == "==";
    assert p[..|p| - 2] == e;
  }

  lemma StripOne(e: string)
    requires AllBase64(e) && |e| % 4 == 3
    ensures StripPadding(e + "=") == e
  {
    var p := e + "=";
    assert p[|p| - 2..][0] == e[|e| - 1];
    assert p[..|p| - 1] == e;
  }

  lemma BtoaNoWhiteSpace(e: string, pad: string)
    requires AllBase64(e) && forall i :: 0 <= i < |pad| ==> pad[i] == '='
    ensures RemoveAsciiWhiteSpace(e + pad) == e + pad
  {
    var p := e + pad;
    forall i | 0 <= i < |p| ensures !IsAsciiWhiteSpace(p[i]) {
      if i < |e| { assert p[i] == e[i]; } else { assert p[i] == pad[i - |e|]; }
    }
  }

  /** `atob` inverts `btoa`. */
  lemma AtobBtoa(b: seq<byte>)
    ensures Atob(Btoa(b)) == Some(b)
  {
    var e := Encode(b);
    EncodeLengthMod4(b);
    if |b| % 3 == 1 {
      BtoaNoWhiteSpace(e, "==");
      StripTwo(e);
    } else if |b| % 3 == 2 {
      BtoaNoWhiteSpace(e, "=");
      StripOne(e);
    } else {
      assert Btoa(b) == e;
      CleanupKeepsAlphabet(e);
    }
    DecodeEncode(b);
  }
}
