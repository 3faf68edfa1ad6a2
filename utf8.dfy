/**
 * UTF-8 (RFC 3629): a strict decoder that accepts exactly the well-formed
 * octet sequences of Unicode's table 3-7 (no overlong forms, no surrogates,
 * nothing above U+10FFFF), and the encoder it inverts.
 */
module Utf8 {
  import opened Options
  import opened Bytes

  /** An octet of the form 10xxxxxx (`b & 0xC0 == 0x80`). */
  predicate IsContinuation(b: byte) {
    0x80 <= b < 0xC0
  }

  /** The number of leading one bits of an octet. */
  function LeadingOnes(b: byte): (n: nat)
    ensures n <= 8
  {
    if b < 0x80 then 0
    else if b < 0xC0 then 1
    else if b < 0xE0 then 2
    else if b < 0xF0 then 3
    else if b < 0xF8 then 4
    else if b < 0xFC then 5
    else if b < 0xFE then 6
    else if b < 0xFF then 7
    else 8
  }

  predicate IsScalarValue(cp: int) {
    (0 <= cp < 0xD800) || (0xE000 <= cp <= 0x10FFFF)
  }

  /** The code point carried by the payload bits of a lead octet and its continuation octets. */
  function CodePointOf(o: seq<byte>): int
    requires 2 <= |o| <= 4
  {
    if |o| == 2 then (o[0] as int - 0xC0) * 64 + (o[1] as int - 0x80)
    else if |o| == 3 then (o[0] as int - 0xE0) * 4096 + (o[1] as int - 0x80) * 64 + (o[2] as int - 0x80)
    else (o[0] as int - 0xF0) * 262144 + (o[1] as int - 0x80) * 4096 + (o[2] as int - 0x80) * 64 + (o[3] as int - 0x80)
  }

  /** The smallest code point that needs `n` octets; a smaller one in `n` octets is an overlong form. */
  function MinCodePoint(n: nat): int {
    if n == 2 then 0x80 else if n == 3 then 0x800 else 0x10000
  }

  /** The first code point of `b` and the number of octets it takes, or `None` when `b` does not start well-formed. */
  function DecodeFirst(b: seq<byte>): (r: Option<(char, nat)>)
    requires |b| > 0
    ensures r.Some? ==> 1 <= r.value.1 <= |b| && r.value.1 <= 4
    ensures r.Some? ==> r.value.1 == (if b[0] < 0x80 then 1 else LeadingOnes(b[0]))
  {
    var n := LeadingOnes(b[0]);
    if n == 0 then Some((b[0] as char, 1))
    else if n == 1 || n > 4 || |b| < n then None
    else if exists i :: 1 <= i < n && !IsContinuation(b[i]) then None
    else
      var cp := CodePointOf(b[..n]);
      if cp < MinCodePoint(n) || !IsScalarValue(cp) then None else Some((cp as char, n))
  }

  /** Strict UTF-8 decoding; `None` on any ill-formed sequence. */
  function Decode(b: seq<byte>): (r: Option<string>)
    decreases |b|
  {
    if b == [] then Some([])
    else match DecodeFirst(b)
      case None => None
      case Some((c, n)) =>
        match Decode(b[n..])
        case None => None
        case Some(rest) => Some([c] + rest)
  }

  /** The UTF-8 octets of one code point. */
  function EncodeChar(c: char): (r: seq<byte>)
    ensures 1 <= |r| <= 4
  {
    var cp := c as int;
    if cp < 0x80 then [cp]
    else if cp < 0x800 then [0xC0 + cp / 64, 0x80 + cp % 64]
    else if cp < 0x10000 then [0xE0 + cp / 4096, 0x80 + (cp / 64) % 64, 0x80 + cp % 64]
    else [0xF0 + cp / 262144, 0x80 + (cp / 4096) % 64, 0x80 + (cp / 64) % 64, 0x80 + cp % 64]
  }

  function Encode(s: string): seq<byte> {
    if s == [] then [] else EncodeChar(s[0]) + Encode(s[1..])
  }

  lemma EncodeTwo(c: char)
    requires 0x80 <= c as int < 0x800
    ensures var e := EncodeChar(c);
            |e| == 2 && LeadingOnes(e[0]) == 2 && IsContinuation(e[1]) && CodePointOf(e) == c as int
  {
  }

  lemma EncodeThree(c: char)
    requires 0x800 <= c as int < 0x10000
    ensures var e := EncodeChar(c);
            |e| == 3 && LeadingOnes(e[0]) == 3 && IsContinuation(e[1]) && IsContinuation(e[2])
            && CodePointOf(e) == c as int
  {
    var cp := c as int;
    assert (cp / 4096) * 64 + (cp / 64) % 64 == cp / 64;
  }

  lemma EncodeFour(c: char)
    requires 0x10000 <= c as int
    ensures var e := EncodeChar(c);
            |e| == 4 && LeadingOnes(e[0]) == 4 && IsContinuation(e[1]) && IsContinuation(e[2])
            && IsContinuation(e[3]) && CodePointOf(e) == c as int
  {
    var cp := c as int;
    assert (cp / 4096) * 64 + (cp / 64) % 64 == cp / 64;
    assert (cp / 262144) * 64 + (cp / 4096) % 64 == cp / 4096;
  }

  /** The decoder reads back exactly the code point at the head of an encoding. */
  lemma DecodeFirstEncodeChar(c: char, rest: seq<byte>)
    ensures DecodeFirst(EncodeChar(c) + rest) == Some((c, |EncodeChar(c)|))
  {
    var e := EncodeChar(c);
    var b := e + rest;
    var n := |e|;
    assert b[..n] == e;
    var cp := c as int;
    if cp >= 0x80 {
      if cp < 0x800 { EncodeTwo(c); } else if cp < 0x10000 { EncodeThree(c); } else { EncodeFour(c); }
      assert forall i :: 1 <= i < n ==> b[i] == e[i];
    }
  }

  /** Decoding undoes encoding. */
  lemma {:induction false} DecodeEncode(s: string)
    ensures Decode(Encode(s)) == Some(s)
  {
    if s != [] {
      var e := EncodeChar(s[0]);
      DecodeEncode(s[1..]);
      DecodeFirstEncodeChar(s[0], Encode(s[1..]));
      assert (e + Encode(s[1..]))[|e|..] == Encode(s[1..]);
      assert [s[0]] + s[1..] == s;
    }
  }

  lemma CanonicalTwo(o: seq<byte>)
    requires |o| == 2 && LeadingOnes(o[0]) == 2 && IsContinuation(o[1])
    requires CodePointOf(o) >= 0x80
    ensures IsScalarValue(CodePointOf(o)) && EncodeChar(CodePointOf(o) as char) == o
  {
  }

  lemma CanonicalThree(o: seq<byte>)
    requires |o| == 3 && LeadingOnes(o[0]) == 3 && IsContinuation(o[1]) && IsContinuation(o[2])
    requires CodePointOf(o) >= 0x800 && IsScalarValue(CodePointOf(o))
    ensures EncodeChar(CodePointOf(o) as char) == o
  {
    var cp := CodePointOf(o);
    var q := (o[0] as int - 0xE0) * 64 + (o[1] as int - 0x80);
    assert cp == q * 64 + (o[2] as int - 0x80);
    assert cp / 64 == q && cp % 64 == o[2] as int - 0x80;
    assert q / 64 == o[0] as int - 0xE0 && q % 64 == o[1] as int - 0x80;
    assert cp / 4096 == q / 64;
  }

  lemma CanonicalFour(o: seq<byte>)
    requires |o| == 4 && LeadingOnes(o[0]) == 4 && IsContinuation(o[1]) && IsContinuation(o[2])
    requires IsContinuation(o[3])
    requires CodePointOf(o) >= 0x10000 && IsScalarValue(CodePointOf(o))
    ensures EncodeChar(CodePointOf(o) as char) == o
  {
    var cp := CodePointOf(o);
    var q1 := o[0] as int - 0xF0;
    var q2 := q1 * 64 + (o[1] as int - 0x80);
    var q3 := q2 * 64 + (o[2] as int - 0x80);
    assert cp == q3 * 64 + (o[3] as int - 0x80);
    assert cp / 64 == q3 && cp % 64 == o[3] as int - 0x80;
    assert q3 / 64 == q2 && q3 % 64 == o[2] as int - 0x80;
    assert q2 / 64 == q1 && q2 % 64 == o[1] as int - 0x80;
    assert cp / 4096 == q2 by { assert cp / 4096 == (cp / 64) / 64; }
    assert cp / 262144 == q1 by { assert cp / 262144 == (cp / 4096) / 64; }
  }

  /** A well-formed head is the encoding of the code point it decodes to. */
  lemma EncodeCharDecodeFirst(b: seq<byte>)
    requires |b| > 0 && DecodeFirst(b).Some?
    ensures var (c, n) := DecodeFirst(b).value; EncodeChar(c) == b[..n]
  {
    var (c, n) := DecodeFirst(b).value;
    var o := b[..n];
    if n == 2 {
      CanonicalTwo(o);
    } else if n == 3 {
      CanonicalThree(o);
    } else if n == 4 {
      CanonicalFour(o);
    }
  }

  /** Re-encoding one decoding step: the head's octets followed by the re-encoded rest. */
  lemma EncodeCons(b: seq<byte>, c: char, n: nat, rest: string)
    requires n <= |b| && EncodeChar(c) == b[..n] && Encode(rest) == b[n..]
    ensures Encode([c] + rest) == b
  {
    assert ([c] + rest)[1..] == rest;
    assert b == b[..n] + b[n..];
  }

  /** One step of `Decode`: a well-formed head followed by a decodable rest. */
  lemma DecodeCons(b: seq<byte>)
    requires b != [] && Decode(b).Some?
    ensures DecodeFirst(b).Some? && Decode(b[DecodeFirst(b).value.1..]).Some?
    ensures Decode(b).value == [DecodeFirst(b).value.0] + Decode(b[DecodeFirst(b).value.1..]).value
  {
  }

  /** The decoder accepts only canonical encodings: what it reads back re-encodes to the same octets. */
  lemma {:induction false} EncodeDecode(b: seq<byte>)
    requires Decode(b).Some?
    ensures Encode(Decode(b).value) == b
    decreases |b|
  {
    if b != [] {
      DecodeCons(b);
      var (c, n) := DecodeFirst(b).value;
      EncodeCharDecodeFirst(b);
      EncodeDecode(b[n..]);
      EncodeCons(b, c, n, Decode(b[n..]).value);
    }
  }
}
