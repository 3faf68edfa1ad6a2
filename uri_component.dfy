/**
 * The two halves of the percent-escape step that turns the binary string
 * returned by `atob` into text: each octet is written as `%` and two
 * lower-case hexadecimal digits, and the result is handed to
 * `decodeURIComponent` (ECMAScript's Decode with an empty reserved set), which
 * reassembles UTF-8 sequences and throws `URIError` on malformed ones.
 */
module UriComponent {
  import opened Options
  import opened Bytes
  import Utf8

  /** The lower-case hexadecimal digit that `Number.prototype.toString(16)` writes for `d`. */
  function HexDigit(d: nat): char
    requires d < 16
  {
    if d < 10 then ('0' as int + d) as char else ('a' as int + d - 10) as char
  }

  /** The value of a hexadecimal digit of either case, as `decodeURIComponent` reads it. */
  function HexValue(c: char): (r: Option<nat>)
    ensures r.Some? ==> r.value < 16
  {
    if '0' <= c <= '9' then Some(c as int - '0' as int)
    else if 'a' <= c <= 'f' then Some(c as int - 'a' as int + 10)
    else if 'A' <= c <= 'F' then Some(c as int - 'A' as int + 10)
    else None
  }

  lemma HexValueOfDigit(d: nat)
    requires d < 16
    ensures HexValue(HexDigit(d)) == Some(d)
  {
  }

  /** `n.toString(16)` for a non-negative integer: lower-case digits without leading zeros. */
  function ToHexString(n: nat): (r: string)
    ensures |r| >= 1
  {
    if n < 16 then [HexDigit(n)] else ToHexString(n / 16) + [HexDigit(n % 16)]
  }

  /** `s.slice(-2)`: the last two characters, or the whole of a shorter string. */
  function SliceLastTwo(s: string): string {
    if |s| <= 2 then s else s[|s| - 2..]
  }

  /** The mapping callback of `decodeToken`: `'%' + ('00' + code.toString(16)).slice(-2)`. */
  function PercentEscape(b: byte): string {
    "%" + SliceLastTwo("00" + ToHexString(b))
  }

  /** For an octet the padding and slicing always leave exactly two digits, high nibble first. */
  lemma PercentEscapeDigits(b: byte)
    ensures PercentEscape(b) == ['%', HexDigit(b / 16), HexDigit(b % 16)]
  {
    if b >= 16 {
      assert ToHexString(b / 16) == [HexDigit(b / 16)];
    }
  }

  /** `.map(...).join('')` over the octets of the binary string. */
  function PercentEscapeAll(bs: seq<byte>): (r: string)
    ensures |r| == 3 * |bs|
  {
    if bs == [] then [] else PercentEscape(bs[0]) + PercentEscapeAll(bs[1..])
  }

  /** The octet written as `%XY` at index `k`, or `None` when there is no `%` followed by two hexadecimal digits there. */
  function EscapedOctet(s: string, k: nat): (r: Option<byte>)
    ensures r.Some? ==> k + 2 < |s| && s[k] == '%'
  {
    if k + 2 < |s| && s[k] == '%' && HexValue(s[k + 1]).Some? && HexValue(s[k + 2]).Some? then
      Some(HexValue(s[k + 1]).value * 16 + HexValue(s[k + 2]).value)
    else None
  }

  /** The continuation octets `j .. n-1` of a multi-octet escape, each of which must be `%XY` with `XY` of the form 10xxxxxx. */
  function ReadContinuations(s: string, j: nat, n: nat): (r: Option<seq<byte>>)
    requires 3 * n <= |s|
    ensures r.Some? ==> |r.value| == if j < n then n - j else 0
    decreases n - j
  {
    if j >= n then Some([])
    else match EscapedOctet(s, 3 * j)
      case None => None
      case Some(b) =>
        if !Utf8.IsContinuation(b) then None
        else match ReadContinuations(s, j + 1, n)
          case None => None
          case Some(rest) => Some([b] + rest)
  }

  /**
   * The character an escape sequence at the start of `s` stands for, and the
   * sequence's length; `None` where `decodeURIComponent` throws `URIError`.
   */
  function DecodeEscape(s: string): (r: Option<(char, nat)>)
    requires |s| > 0 && s[0] == '%'
    ensures r.Some? ==> 3 <= r.value.1 <= |s|
  {
    match EscapedOctet(s, 0)
    case None => None
    case Some(b) =>
      var n := Utf8.LeadingOnes(b);
      if n == 0 then Some((b as char, 3))
      else if n == 1 || n > 4 || |s| < 3 * n then None
      else match ReadContinuations(s, 1, n)
        case None => None
        case Some(rest) =>
          match Utf8.Decode([b] + rest)
          case Some(t) => if |t| == 1 then Some((t[0], 3 * n)) else None
          case None => None
  }

  function Prepend(c: char, r: Option<string>): Option<string> {
    match r
    case Some(t) => Some([c] + t)
    case None => None
  }

  /** `decodeURIComponent`; `None` where it throws `URIError`. Characters other than `%` are copied. */
  function DecodeUriComponent(s: string): Option<string>
    decreases |s|
  {
    if s == [] then Some([])
    else if s[0] != '%' then Prepend(s[0], DecodeUriComponent(s[1..]))
    else match DecodeEscape(s)
      case None => None
      case Some((c, len)) => Prepend(c, DecodeUriComponent(s[len..]))
  }

  /** What follows escape `j` of an escaped octet string is the escape of the octets from `j` on. */
  lemma {:induction false} EscapeAllSuffix(bs: seq<byte>, j: nat)
    requires j <= |bs|
    ensures PercentEscapeAll(bs)[3 * j..] == PercentEscapeAll(bs[j..])
  {
    if j > 0 {
      var e := PercentEscapeAll(bs);
      var t := PercentEscapeAll(bs[1..]);
      assert e == PercentEscape(bs[0]) + t;
      EscapeAllSuffix(bs[1..], j - 1);
      assert bs[1..][j - 1..] == bs[j..];
      assert e[3 * j..] == t[3 * (j - 1)..];
    }
  }

  /** An escaped octet string starts with the escape of its first octet. */
  lemma EscapeAllHead(bs: seq<byte>)
    requires |bs| > 0
    ensures EscapedOctet(PercentEscapeAll(bs), 0) == Some(bs[0])
  {
    PercentEscapeDigits(bs[0]);
    HexValueOfDigit(bs[0] / 16);
    HexValueOfDigit(bs[0] % 16);
    var e := PercentEscapeAll(bs);
    assert e[..3] == PercentEscape(bs[0]);
  }

  /** `EscapedOctet` looks only at the three characters from `k` on. */
  lemma EscapedOctetShift(s: string, k: nat)
    requires k <= |s|
    ensures EscapedOctet(s, k) == EscapedOctet(s[k..], 0)
  {
  }

  /** In an escaped octet string, escape `j` holds octet `j`, and what follows escape `k` is the escape of the rest. */
  lemma EscapeAllAt(bs: seq<byte>, j: nat)
    requires j < |bs|
    ensures EscapedOctet(PercentEscapeAll(bs), 3 * j) == Some(bs[j])
    ensures PercentEscapeAll(bs)[3 * j..] == PercentEscapeAll(bs[j..])
  {
    EscapeAllSuffix(bs, j);
    EscapeAllHead(bs[j..]);
    EscapedOctetShift(PercentEscapeAll(bs), 3 * j);
  }

  lemma {:induction false} ReadContinuationsOfEscapes(bs: seq<byte>, j: nat, n: nat)
    requires 1 <= j && n <= |bs|
    ensures var r := ReadContinuations(PercentEscapeAll(bs), j, n);
            (r.Some? <==> forall i :: j <= i < n ==> Utf8.IsContinuation(bs[i]))
            && (r.Some? && j <= n ==> r.value == bs[j..n])
    decreases n - j
  {
    if j < n {
      EscapeAllAt(bs, j);
      ReadContinuationsOfEscapes(bs, j + 1, n);
    }
  }

  /** `Utf8.DecodeFirst` looks only at the octets the lead octet announces. */
  lemma DecodeFirstOfPrefix(b: seq<byte>, n: nat)
    requires |b| > 0 && n == Utf8.LeadingOnes(b[0]) && 2 <= n <= |b|
    ensures Utf8.DecodeFirst(b[..n]) == Utf8.DecodeFirst(b)
  {
    assert b[..n][..n] == b[..n];
    assert forall i :: 0 <= i < n ==> b[..n][i] == b[i];
  }

  /** A decoded head whose length is counted in escapes of three characters rather than in octets. */
  function Tripled(r: Option<(char, nat)>): Option<(char, nat)> {
    match r
    case None => None
    case Some((c, n)) => Some((c, 3 * n))
  }

  /** Strict decoding of exactly the octets a lead octet announces gives the one character `DecodeFirst` reads. */
  lemma DecodeAnnounced(bs: seq<byte>, n: nat)
    requires |bs| > 0 && n == Utf8.LeadingOnes(bs[0]) && 2 <= n <= |bs|
    ensures Utf8.Decode(bs[..n]) == match Utf8.DecodeFirst(bs)
                                    case None => None
                                    case Some((c, m)) => Some([c])
  {
    DecodeFirstOfPrefix(bs, n);
    var o := bs[..n];
    if Utf8.DecodeFirst(bs).Some? {
      var (c, m) := Utf8.DecodeFirst(bs).value;
      assert m == n;
      assert o[n..] == [];
      assert Utf8.Decode(o[n..]) == Some([]);
      assert [c] + [] == [c];
    }
  }

  /** A multi-octet escape whose continuation escapes hold well-formed continuation octets decodes as `Utf8.DecodeFirst` does. */
  lemma DecodeEscapeRead(s: string, bs: seq<byte>, n: nat)
    requires |s| > 0 && s[0] == '%' && |bs| > 0 && EscapedOctet(s, 0) == Some(bs[0])
    requires n == Utf8.LeadingOnes(bs[0]) && 2 <= n <= 4 && n <= |bs| && 3 * n <= |s|
    requires ReadContinuations(s, 1, n) == Some(bs[1..n])
    ensures DecodeEscape(s) == Tripled(Utf8.DecodeFirst(bs))
  {
    assert [bs[0]] + bs[1..n] == bs[..n];
    DecodeAnnounced(bs, n);
  }

  /** A multi-octet escape with a continuation escape that is not 10xxxxxx fails, as `Utf8.DecodeFirst` does. */
  lemma DecodeEscapeBadContinuation(s: string, bs: seq<byte>, n: nat)
    requires |s| > 0 && s[0] == '%' && |bs| > 0 && EscapedOctet(s, 0) == Some(bs[0])
    requires n == Utf8.LeadingOnes(bs[0]) && 2 <= n <= 4 && n <= |bs| && 3 * n <= |s|
    requires ReadContinuations(s, 1, n).None?
    requires exists i :: 1 <= i < n && !Utf8.IsContinuation(bs[i])
    ensures DecodeEscape(s).None? && Utf8.DecodeFirst(bs).None?
  {
  }

  lemma DecodeEscapeMulti(bs: seq<byte>)
    requires |bs| > 0
    requires var n := Utf8.LeadingOnes(bs[0]); 2 <= n <= 4 && n <= |bs|
    ensures var e := PercentEscapeAll(bs);
            e[0] == '%' && DecodeEscape(e) == Tripled(Utf8.DecodeFirst(bs))
  {
    var e := PercentEscapeAll(bs);
    EscapeAllAt(bs, 0);
    var n := Utf8.LeadingOnes(bs[0]);
    ReadContinuationsOfEscapes(bs, 1, n);
    if forall i :: 1 <= i < n ==> Utf8.IsContinuation(bs[i]) {
      DecodeEscapeRead(e, bs, n);
    } else {
      DecodeEscapeBadContinuation(e, bs, n);
    }
  }

  /** On an escaped octet string, `DecodeEscape` reads what `Utf8.DecodeFirst` reads, three characters per octet. */
  lemma DecodeEscapeOfEscapes(bs: seq<byte>)
    requires |bs| > 0
    ensures var e := PercentEscapeAll(bs);
            e[0] == '%' && DecodeEscape(e) == Tripled(Utf8.DecodeFirst(bs))
  {
    EscapeAllAt(bs, 0);
    var n := Utf8.LeadingOnes(bs[0]);
    if 2 <= n <= 4 && n <= |bs| {
      DecodeEscapeMulti(bs);
    }
  }

  /** The percent-escape trick is UTF-8 decoding: it succeeds exactly on well-formed UTF-8 and yields its text. */
  lemma {:induction false} DecodeEscapedIsUtf8(bs: seq<byte>)
    ensures DecodeUriComponent(PercentEscapeAll(bs)) == Utf8.Decode(bs)
    decreases |bs|
  {
    if bs != [] {
      var e := PercentEscapeAll(bs);
      DecodeEscapeOfEscapes(bs);
      match Utf8.DecodeFirst(bs)
      case None =>
      case Some((c, n)) =>
        assert e[3 * n..] == PercentEscapeAll(bs[n..]) by {
          if n < |bs| {
            EscapeAllAt(bs, n);
          } else {
            assert e[3 * n..] == [];
          }
        }
        DecodeEscapedIsUtf8(bs[n..]);
    }
  }
}
