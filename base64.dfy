/**
 * The two browser functions encode.js relies on for base64:
 *  - `btoa`: the base64 encoding of section 4 of RFC 4648 applied to a "binary string"
 *    (a string whose every character code is below 256), with the "=" padding of
 *    section 3.2;
 *  - `atob`: the forgiving-base64 decode of the WHATWG Infra Standard, which strips ASCII
 *    whitespace, drops one or two final "=" from a length that is a multiple of four,
 *    fails on a length of the form 4k+1 or on a character outside the alphabet, and
 *    discards the bits left over in the last group.
 */
module Base64 {
  import opened Wrappers
  import opened Strings

  /** An element of a `Uint8Array`. */
  type byte = b: int | 0 <= b < 256

  /** A 6-bit group, the value one base64 character stands for. */
  type sextet = v: int | 0 <= v < 64

  predicate IsAlphabetChar(c: char) {
    ('A' <= c <= 'Z') || ('a' <= c <= 'z') || ('0' <= c <= '9') || c == '+' || c == '/'
  }

  predicate AllAlphabet(s: string) {
    forall i :: 0 <= i < |s| ==> IsAlphabetChar(s[i])
  }

  /** Table 1 of RFC 4648: the character that encodes value `v`. */
  function SextetChar(v: sextet): (c: char)
    ensures IsAlphabetChar(c)
  {
    if v < 26 then ('A' as int + v) as char
    else if v < 52 then ('a' as int + (v - 26)) as char
    else if v < 62 then ('0' as int + (v - 52)) as char
    else if v == 62 then '+'
    else '/'
  }

  /** The value an alphabet character encodes: the inverse of `SextetChar`. */
  function CharSextet(c: char): sextet
    requires IsAlphabetChar(c)
  {
    if 'A' <= c <= 'Z' then c as int - 'A' as int
    else if 'a' <= c <= 'z' then c as int - 'a' as int + 26
    else if '0' <= c <= '9' then c as int - '0' as int + 52
    else if c == '+' then 62
    else 63
  }

  lemma SextetRoundTrip(v: sextet)
    ensures CharSextet(SextetChar(v)) == v
  {
  }

  /** The characters a final group of 0, 1 or 2 bytes produces before padding. */
  function TailLength(rest: nat): nat {
    if rest == 0 then 0 else rest + 1
  }

  /** The four characters of a full group of three bytes. */
  function FullGroup(b0: byte, b1: byte, b2: byte): (q: string)
    ensures |q| == 4 && AllAlphabet(q)
  {
    [SextetChar(b0 / 4), SextetChar(b0 % 4 * 16 + b1 / 16),
     SextetChar(b1 % 16 * 4 + b2 / 64), SextetChar(b2 % 64)]
  }

  /** The base64 characters of `b`, without the final "=" padding. */
  function EncodeUnpadded(b: seq<byte>): (s: string)
    ensures AllAlphabet(s)
    ensures |s| % 4 != 1
    decreases |b|
  {
    if |b| == 0 then ""
    else if |b| == 1 then
      [SextetChar(b[0] / 4), SextetChar(b[0] % 4 * 16)]
    else if |b| == 2 then
      [SextetChar(b[0] / 4), SextetChar(b[0] % 4 * 16 + b[1] / 16), SextetChar(b[1] % 16 * 4)]
    else
      FullGroup(b[0], b[1], b[2]) + EncodeUnpadded(b[3..])
  }

  /** The padding of section 3.2 of RFC 4648 for `n` input bytes. */
  function PadFor(n: nat): string {
    if n % 3 == 1 then "==" else if n % 3 == 2 then "=" else ""
  }

  /** The base64 encoding of section 4 of RFC 4648, padding included. */
  function Encode(b: seq<byte>): (s: string)
    ensures forall i :: 0 <= i < |s| ==> IsAlphabetChar(s[i]) || s[i] == '='
  {
    EncodeUnpadded(b) + PadFor(|b|)
  }

  /** A JavaScript "binary string": every character code fits in a byte. */
  predicate IsBinary(s: string) {
    forall i :: 0 <= i < |s| ==> s[i] as int < 256
  }

  /** The string whose i-th character has code `b[i]` (`String.fromCharCode` per byte). */
  function BinaryString(b: seq<byte>): (s: string)
  {
    seq(|b|, i requires 0 <= i < |b| => b[i] as char)
  }

  /** The bytes a `Uint8Array` holds after storing each character code of `s`:
      a store into a `Uint8Array` keeps the code modulo 256. */
  function Uint8Values(s: string): (b: seq<byte>)
  {
    seq(|s|, i requires 0 <= i < |s| => (s[i] as int) % 256)
  }

  /** Character i of `BinaryString(b)` has code `b[i]`, and storing the codes back gives `b`. */
  lemma BinaryStringCodes(b: seq<byte>)
    ensures |BinaryString(b)| == |b| && IsBinary(BinaryString(b))
    ensures forall i :: 0 <= i < |b| ==> BinaryString(b)[i] as int == b[i]
    ensures Uint8Values(BinaryString(b)) == b
  {
  }

  /** `btoa`: fails (throws InvalidCharacterError) on a character code above 255. */
  function Btoa(s: string): Option<string> {
    if IsBinary(s) then Some(Encode(Uint8Values(s))) else None
  }

  /** `btoa` never throws on the binary string of a byte sequence, and encodes its bytes. */
  lemma BtoaOfBinary(b: seq<byte>)
    ensures Btoa(BinaryString(b)) == Some(Encode(b))
  {
    BinaryStringCodes(b);
  }

  predicate IsAsciiWhitespace(c: char) {
    c == '\t' || c == '\n' || c as int == 12 || c == '\r' || c == ' '
  }

  predicate IsPadChar(c: char) {
    c == '='
  }

  /** Removes one or two final "=" characters. */
  function StripFinalPadding(d: string): (r: string)
    ensures |d| - 2 <= |r| <= |d| && r == d[..|r|]
    ensures forall i :: |r| <= i < |d| ==> d[i] == '='
  {
    if |d| >= 2 && d[|d| - 2] == '=' && d[|d| - 1] == '=' then d[..|d| - 2]
    else if |d| >= 1 && d[|d| - 1] == '=' then d[..|d| - 1]
    else d
  }

  /** The bytes of a string of alphabet characters, four characters to three bytes; a final
      group of two or three characters yields one or two bytes and its spare bits are dropped. */
  function DecodeChars(d: string): (b: seq<byte>)
    requires AllAlphabet(d) && |d| % 4 != 1
    decreases |d|
  {
    if |d| == 0 then []
    else if |d| == 2 then
      [CharSextet(d[0]) * 4 + CharSextet(d[1]) / 16]
    else if |d| == 3 then
      [CharSextet(d[0]) * 4 + CharSextet(d[1]) / 16,
       CharSextet(d[1]) % 16 * 16 + CharSextet(d[2]) / 4]
    else
      DecodeGroup(d[..4]) + DecodeChars(d[4..])
  }

  /** `atob`: the forgiving-base64 decode; `None` where the browser throws. */
  function Atob(s: string): (r: Option<string>)
    ensures r.Some? ==> IsBinary(r.value)
  {
    var d := Without(s, IsAsciiWhitespace);
    var d := if |d| % 4 == 0 then StripFinalPadding(d) else d;
    if |d| % 4 == 1 || !AllAlphabet(d) then None
    else
      BinaryStringCodes(DecodeChars(d));
      Some(BinaryString(DecodeChars(d)))
  }

  /** The three bytes of a group are recovered from its four 6-bit values. */
  lemma GroupArithmetic(b0: byte, b1: byte, b2: byte)
    ensures (b0 / 4) * 4 + (b0 % 4 * 16 + b1 / 16) / 16 == b0
    ensures (b0 % 4 * 16 + b1 / 16) % 16 * 16 + (b1 % 16 * 4 + b2 / 64) / 4 == b1
    ensures (b1 % 16 * 4 + b2 / 64) % 4 * 64 + b2 % 64 == b2
  {
  }

  /** The three bytes four alphabet characters stand for. */
  function DecodeGroup(q: string): seq<byte>
    requires |q| == 4 && AllAlphabet(q)
  {
    [CharSextet(q[0]) * 4 + CharSextet(q[1]) / 16,
     CharSextet(q[1]) % 16 * 16 + CharSextet(q[2]) / 4,
     CharSextet(q[2]) % 4 * 64 + CharSextet(q[3])]
  }

  /** A leading group of four characters decodes on its own. */
  lemma DecodeLeadingGroup(q: string, rest: string)
    requires |q| == 4 && AllAlphabet(q) && AllAlphabet(rest) && |rest| % 4 != 1
    ensures AllAlphabet(q + rest)
    ensures DecodeChars(q + rest) == DecodeGroup(q) + DecodeChars(rest)
  {
    var d := q + rest;
    assert d[4..] == rest;
    assert d[..4] == q;
  }

  /** Decoding the characters of one full group gives back its three bytes. */
  lemma DecodeFullGroup(b0: byte, b1: byte, b2: byte)
    ensures DecodeGroup(FullGroup(b0, b1, b2)) == [b0, b1, b2]
  {
    SextetRoundTrip(b0 / 4);
    SextetRoundTrip(b0 % 4 * 16 + b1 / 16);
    SextetRoundTrip(b1 % 16 * 4 + b2 / 64);
    SextetRoundTrip(b2 % 64);
    GroupArithmetic(b0, b1, b2);
  }

  /** Decoding the two characters of a final single byte gives it back. */
  lemma DecodeOneByteGroup(b0: byte)
    ensures DecodeChars(EncodeUnpadded([b0])) == [b0]
  {
    var v0, v1 := b0 / 4, b0 % 4 * 16;
    assert EncodeUnpadded([b0]) == [SextetChar(v0), SextetChar(v1)];
    SextetRoundTrip(v0);
    SextetRoundTrip(v1);
  }

  /** Decoding the three characters of a final pair of bytes gives them back. */
  lemma DecodeTwoByteGroup(b0: byte, b1: byte)
    ensures DecodeChars(EncodeUnpadded([b0, b1])) == [b0, b1]
  {
    var v0, v1, v2 := b0 / 4, b0 % 4 * 16 + b1 / 16, b1 % 16 * 4;
    assert EncodeUnpadded([b0, b1]) == [SextetChar(v0), SextetChar(v1), SextetChar(v2)];
    SextetRoundTrip(v0);
    SextetRoundTrip(v1);
    SextetRoundTrip(v2);
    GroupArithmetic(b0, b1, 0);
  }

  /** One step of the induction: a leading full group decodes to its own three bytes. */
  lemma DecodeEncodeStep(b: seq<byte>)
    requires |b| >= 3
    ensures DecodeChars(EncodeUnpadded(b)) == [b[0], b[1], b[2]] + DecodeChars(EncodeUnpadded(b[3..]))
  {
    var q := FullGroup(b[0], b[1], b[2]);
    DecodeLeadingGroup(q, EncodeUnpadded(b[3..]));
    DecodeFullGroup(b[0], b[1], b[2]);
  }

  lemma FirstThree(b: seq<byte>)
    requires |b| >= 3
    ensures [b[0], b[1], b[2]] + b[3..] == b
  {
  }

  /** Decoding undoes encoding, group by group. */
  lemma {:induction false} DecodeEncodeUnpadded(b: seq<byte>)
    ensures DecodeChars(EncodeUnpadded(b)) == b
    decreases |b|
  {
    if |b| == 1 {
      DecodeOneByteGroup(b[0]);
      assert b == [b[0]];
    } else if |b| == 2 {
      DecodeTwoByteGroup(b[0], b[1]);
      assert b == [b[0], b[1]];
    } else if |b| >= 3 {
      DecodeEncodeStep(b);
      DecodeEncodeUnpadded(b[3..]);
      FirstThree(b);
    }
  }

  /** Stripping the final "=" of an encoding leaves exactly the unpadded characters. */
  lemma StripEncodePadding(b: seq<byte>)
    ensures StripFinalPadding(Encode(b)) == EncodeUnpadded(b)
  {
    var u := EncodeUnpadded(b);
    var e := Encode(b);
    assert u != [] ==> IsAlphabetChar(u[|u| - 1]);
    if |b| % 3 == 0 {
      assert e == u;
    } else if |b| % 3 == 1 {
      assert e == u + "==";
      assert e[..|e| - 2] == u;
    } else {
      assert e == u + "=";
      assert e[|e| - 2] == u[|u| - 1];
      assert e[..|e| - 1] == u;
    }
  }

  /** Quotient and remainder of a length made of whole groups of four plus a short tail. */
  lemma GroupsOfFour(k: nat, t: nat)
    requires t < 4
    ensures (4 * k + t) % 4 == t && (4 * k + t) / 4 == k
  {
  }

  /** Four characters for every full group of three bytes, plus two or three for a final
      group of one or two bytes. */
  lemma {:induction false} UnpaddedLength(b: seq<byte>)
    ensures |EncodeUnpadded(b)| == 4 * (|b| / 3) + TailLength(|b| % 3)
    decreases |b|
  {
    if |b| >= 3 {
      UnpaddedLength(b[3..]);
    }
  }

  /** With its padding, the encoding is four characters for every started group of three
      bytes. */
  lemma EncodedLength(b: seq<byte>)
    ensures |Encode(b)| == 4 * ((|b| + 2) / 3)
  {
    UnpaddedLength(b);
    StartedGroups(|b|);
  }

  /** The started groups of three are the full ones, plus one when a short group is left. */
  lemma StartedGroups(n: nat)
    ensures (n + 2) / 3 == n / 3 + (if n % 3 == 0 then 0 else 1)
  {
  }

  lemma EncodedWholeGroups(b: seq<byte>)
    ensures |Encode(b)| % 4 == 0
  {
    EncodedLength(b);
    GroupsOfFour((|b| + 2) / 3, 0);
  }

  /** `atob` on a padded string with no whitespace decodes what is left without the padding. */
  lemma AtobOfPadded(e: string, u: string)
    requires Without(e, IsAsciiWhitespace) == e && |e| % 4 == 0
    requires StripFinalPadding(e) == u && AllAlphabet(u) && |u| % 4 != 1
    ensures Atob(e) == Some(BinaryString(DecodeChars(u)))
  {
  }

  /** `atob(btoa(s)) == s` for every binary string, stated over its bytes. */
  lemma AtobOfEncode(b: seq<byte>)
    ensures Atob(Encode(b)) == Some(BinaryString(b))
  {
    var e := Encode(b);
    WithoutNothingToDrop(e, IsAsciiWhitespace);
    StripEncodePadding(b);
    EncodedWholeGroups(b);
    AtobOfPadded(e, EncodeUnpadded(b));
    DecodeEncodeUnpadded(b);
  }
}
