/**
 * The byte-to-token layer of encode.js: standard base64 rewritten into the URL-safe
 * alphabet of section 5 of RFC 4648 with the padding dropped (encode.js:31), and the way
 * back: the alphabet undone (encode.js:43), the padding restored (encode.js:44) and the
 * result handed to `atob` (encode.js:45).
 */
module TokenCodec {
  import opened Wrappers
  import opened Strings
  import opened Base64

  /** The characters a token is made of: `A-Z a-z 0-9 - _`. */
  predicate IsTokenChar(c: char) {
    ('A' <= c <= 'Z') || ('a' <= c <= 'z') || ('0' <= c <= '9') || c == '-' || c == '_'
  }

  /** Every "+" becomes "-", then every "/" becomes "_". */
  function Rename(s: string): string {
    Replace(Replace(s, '+', '-'), '/', '_')
  }

  /** The rewrite of encode.js:31: renamed, then every "=" removed. */
  function UrlSafe(s: string): string {
    Without(Rename(s), IsPadChar)
  }

  /** The rewrite of encode.js:43: every "-" back to "+", then every "_" back to "/". */
  function UndoUrlSafe(t: string): string {
    Replace(Replace(t, '-', '+'), '_', '/')
  }

  /** How many "=" the padding loop appends to a string of length `n`. */
  function PadLength(n: nat): nat {
    (4 - n % 4) % 4
  }

  function EqualSigns(k: nat): string {
    seq(k, _ => '=')
  }

  /** What the padding loop of encode.js:44 leaves: the shortest extension of `s` by "="
      characters whose length is a multiple of four. */
  function Repadded(s: string): (r: string)
    ensures |r| % 4 == 0 && |s| <= |r| < |s| + 4
    ensures r[..|s|] == s
    ensures forall i :: |s| <= i < |r| ==> r[i] == '='
  {
    s + EqualSigns(PadLength(|s|))
  }

  /** The token of a byte sequence (encode.js:24-31 in a browser). */
  function TokenOf(b: seq<byte>): string {
    UrlSafe(Encode(b))
  }

  /** The bytes of a token (encode.js:43-49), `None` where `atob` throws. */
  function BytesOfToken(t: string): Option<seq<byte>> {
    match Atob(Repadded(UndoUrlSafe(t)))
    case None => None
    case Some(binary) => Some(Uint8Values(binary))
  }

  lemma ReplaceAppend(a: string, b: string, from: char, to: char)
    ensures Replace(a + b, from, to) == Replace(a, from, to) + Replace(b, from, to)
  {
    var l, r := Replace(a + b, from, to), Replace(a, from, to) + Replace(b, from, to);
    assert forall i :: 0 <= i < |l| ==> l[i] == r[i] by {
      forall i | 0 <= i < |l| ensures l[i] == r[i] {
        if i < |a| {
          assert (a + b)[i] == a[i];
        } else {
          assert (a + b)[i] == b[i - |a|];
        }
      }
    }
  }

  /** The rewrite keeps base64 characters one for one, except that "+" and "/" become
      "-" and "_". */
  lemma RenameAt(s: string, i: nat)
    requires i < |s|
    ensures |Rename(s)| == |s|
    ensures Rename(s)[i] == (if s[i] == '+' then '-' else if s[i] == '/' then '_' else s[i])
  {
  }

  /** A token is the renamed unpadded encoding: the rewrite drops exactly the padding. */
  lemma TokenIsRenamedUnpadded(b: seq<byte>)
    ensures TokenOf(b) == Rename(EncodeUnpadded(b))
  {
    var u, p := EncodeUnpadded(b), PadFor(|b|);
    ReplaceAppend(u, p, '+', '-');
    ReplaceAppend(Replace(u, '+', '-'), Replace(p, '+', '-'), '/', '_');
    assert Rename(p) == p;
    assert Rename(u + p) == Rename(u) + p;
    forall i | 0 <= i < |Rename(u)| ensures !IsPadChar(Rename(u)[i]) {
      RenameAt(u, i);
    }
    WithoutAppend(Rename(u), p, IsPadChar);
    WithoutNothingToDrop(Rename(u), IsPadChar);
    WithoutEverything(p, IsPadChar);
  }

  /** The token contains only `A-Z a-z 0-9 - _`: no "+", "/" or "=" survives (encode.js:31). */
  lemma TokenAlphabet(b: seq<byte>)
    ensures forall i :: 0 <= i < |TokenOf(b)| ==> IsTokenChar(TokenOf(b)[i])
  {
    TokenIsRenamedUnpadded(b);
    var u := EncodeUnpadded(b);
    forall i | 0 <= i < |u| ensures IsTokenChar(Rename(u)[i]) {
      RenameAt(u, i);
    }
  }

  /** Four characters for every full group of three bytes, then 0, 2 or 3 characters for a
      final group of 0, 1 or 2 bytes. */
  lemma TokenLength(b: seq<byte>)
    ensures |TokenOf(b)| == 4 * (|b| / 3) + TailLength(|b| % 3)
  {
    TokenIsRenamedUnpadded(b);
    UnpaddedLength(b);
  }

  /** Undoing the rewrite restores every base64 character. */
  lemma UndoRename(u: string)
    requires AllAlphabet(u)
    ensures UndoUrlSafe(Rename(u)) == u
  {
    var r := UndoUrlSafe(Rename(u));
    forall i | 0 <= i < |u| ensures r[i] == u[i] {
      RenameAt(u, i);
    }
  }

  lemma EqualsIsPadding(n: nat)
    ensures EqualSigns(PadLength(4 * (n / 3) + TailLength(n % 3))) == PadFor(n)
  {
    GroupsOfFour(n / 3, TailLength(n % 3));
    if n % 3 == 1 {
      assert EqualSigns(2) == "==";
    } else if n % 3 == 2 {
      assert EqualSigns(1) == "=";
    }
  }

  /** For a token the encoder produced, the padding loop restores exactly the stripped
      padding: 0, 2 or 1 "=" for 0, 1 or 2 bytes in the final group. */
  lemma TokenRepadding(b: seq<byte>)
    ensures Repadded(UndoUrlSafe(TokenOf(b))) == Encode(b)
    ensures PadLength(|TokenOf(b)|) == |PadFor(|b|)|
  {
    var u := EncodeUnpadded(b);
    TokenIsRenamedUnpadded(b);
    UndoRename(u);
    UnpaddedLength(b);
    EqualsIsPadding(|b|);
  }

  /** Decoding a token gives back the bytes it was made from. */
  lemma TokenRoundTrip(b: seq<byte>)
    ensures BytesOfToken(TokenOf(b)) == Some(b)
  {
    TokenRepadding(b);
    AtobOfEncode(b);
    BinaryStringCodes(b);
  }

  /** Different byte sequences give different tokens. */
  lemma TokenInjective(b1: seq<byte>, b2: seq<byte>)
    requires TokenOf(b1) == TokenOf(b2)
    ensures b1 == b2
  {
    TokenRoundTrip(b1);
    TokenRoundTrip(b2);
  }

  /** After three "=" are appended, whitespace removal and padding removal leave a string
      that `atob` rejects. */
  lemma AtobRejectsTriplePad(s: string)
    ensures Atob(s + "===") == None
  {
    var w := Without(s, IsAsciiWhitespace);
    WithoutAppend(s, "===", IsAsciiWhitespace);
    WithoutNothingToDrop("===", IsAsciiWhitespace);
    var d := w + "===";
    if |d| % 4 == 0 {
      var d' := StripFinalPadding(d);
      assert d' == w + "=";
      assert !IsAlphabetChar(d'[|d'| - 1]);
    } else {
      assert !IsAlphabetChar(d[|d| - 1]);
    }
  }

  /** A token of length 4k+1 is malformed: the padding loop appends three "=", and decoding
      fails (encode.js:44-45). */
  lemma TokenLengthOneMoreRejected(t: string)
    requires |t| % 4 == 1
    ensures BytesOfToken(t) == None
  {
    var s := UndoUrlSafe(t);
    assert Repadded(s) == s + "===";
    AtobRejectsTriplePad(s);
  }

  /** `atob` rejects a string holding a character that is neither a base64 character, nor
      "=", nor ASCII whitespace. */
  lemma AtobRejectsForeign(s: string, i: nat)
    requires i < |s|
    requires !IsAlphabetChar(s[i]) && !IsPadChar(s[i]) && !IsAsciiWhitespace(s[i])
    ensures Atob(s) == None
  {
    var d := Without(s, IsAsciiWhitespace);
    WithoutKeeps(s, IsAsciiWhitespace, i);
    var j :| 0 <= j < |d| && d[j] == s[i];
    var d' := if |d| % 4 == 0 then StripFinalPadding(d) else d;
    assert j < |d'|;
    assert d'[j] == s[i];
  }

  /** A token holding a character outside `A-Z a-z 0-9 - _ + / =` and ASCII whitespace
      is malformed. */
  lemma TokenForeignCharRejected(t: string, i: nat)
    requires i < |t|
    requires !IsTokenChar(t[i]) && !IsAlphabetChar(t[i]) && t[i] != '=' && !IsAsciiWhitespace(t[i])
    ensures BytesOfToken(t) == None
  {
    var s := UndoUrlSafe(t);
    assert s[i] == t[i];
    assert Repadded(s)[i] == t[i];
    AtobRejectsForeign(Repadded(s), i);
  }
}
