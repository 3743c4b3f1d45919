/**
 * encode.js: a markdown document to a shareable token and link, and back.
 *
 * The library calls encode.js makes are fields of `Externals`, passed in: UTF-8 text
 * encoding and decoding (`TextEncoder`, `TextDecoder`), raw deflate (pako's `deflateRaw`
 * and `inflateRaw`), the fragment of a parsed URL (`new URL(url).hash`) and the
 * percent-decoding of `URLSearchParams`. What the round trips need of them is stated as
 * predicates over `Externals` and required where it is used.
 */
module ShareLink {
  import opened Wrappers
  import opened Strings
  import opened Base64
  import opened TokenCodec
  import SearchParams

  datatype Externals = Externals(
    /** `new TextEncoder().encode`. */
    textEncode: string -> seq<byte>,
    /** `new TextDecoder().decode`: not fatal, so every byte sequence decodes. */
    textDecode: seq<byte> -> string,
    /** `pako.deflateRaw`. */
    deflateRaw: seq<byte> -> seq<byte>,
    /** `pako.inflateRaw`; `None` where it throws on corrupt data. */
    inflateRaw: seq<byte> -> Option<seq<byte>>,
    /** `new URL(url).hash`; `None` where the URL does not parse and the constructor throws. */
    urlHash: string -> Option<string>,
    /** The percent-decoding (then UTF-8 decoding) that `URLSearchParams` applies to names and
        values. */
    percentDecode: string -> string)

  /** Inflating what deflate produced gives back its input. */
  ghost predicate InflateLossless(ext: Externals) {
    forall b :: ext.inflateRaw(ext.deflateRaw(b)) == Some(b)
  }

  /** Decoding the UTF-8 bytes of `text` gives `text` back. This does not hold for every
      string: by default `TextDecoder` drops a leading byte order mark, so a text starting
      with U+FEFF comes back without it. */
  ghost predicate TextRoundTrips(ext: Externals, text: string) {
    ext.textDecode(ext.textEncode(text)) == text
  }

  /** A raw deflate stream always holds at least one block, so it is never empty. */
  ghost predicate DeflateNeverEmpty(ext: Externals) {
    forall b :: ext.deflateRaw(b) != []
  }

  /** Percent-decoding leaves a string without "%" as it is. */
  ghost predicate PercentDecodeKeepsPlain(ext: Externals) {
    forall s :: SearchParams.NoPercent(s) ==> ext.percentDecode(s) == s
  }

  /** The token `compressToBase64Url(text)` returns (in a browser). */
  function EncodeDocument(ext: Externals, text: string): string {
    TokenOf(ext.deflateRaw(ext.textEncode(text)))
  }

  /** The result of `decompressFromBase64Url(token)`: `None` for `null`. */
  function DecodeDocument(ext: Externals, token: string): Option<string> {
    match BytesOfToken(token)
    case None => None
    case Some(bytes) =>
      match ext.inflateRaw(bytes)
      case None => None
      case Some(raw) => Some(ext.textDecode(raw))
  }

  /** `compressToBase64Url` (encode.js:20-32), browser branch. */
  method CompressToBase64Url(ext: Externals, str: string) returns (token: string)
    ensures token == EncodeDocument(ext, str)
  {
    var bytes := ext.textEncode(str);
    var compressed := ext.deflateRaw(bytes);
    var binary := "";
    for i := 0 to |compressed|
      invariant |binary| == i
      invariant forall k :: 0 <= k < i ==> binary[k] == compressed[k] as char
    {
      binary := binary + [compressed[i] as char];
    }
    assert binary == BinaryString(compressed);
    BtoaOfBinary(compressed);
    token := UrlSafe(Btoa(binary).value);
  }

  /** The `Uint8Array` filled with the character codes of `binary` (encode.js:46-49). */
  method StoreCharCodes(binary: string) returns (bytes: array<byte>)
    ensures fresh(bytes)
    ensures bytes[..] == Uint8Values(binary)
  {
    bytes := new byte[|binary|];
    for i := 0 to |binary|
      invariant forall k :: 0 <= k < i ==> bytes[k] == (binary[k] as int) % 256
    {
      bytes[i] := (binary[i] as int) % 256;
    }
  }

  /** `decompressFromBase64Url` (encode.js:37-56), browser branch: every failure becomes
      `None`. */
  method DecompressFromBase64Url(ext: Externals, base64url: string) returns (r: Option<string>)
    ensures r == DecodeDocument(ext, base64url)
  {
    var base64 := UndoUrlSafe(base64url);
    ghost var renamed := base64;
    while |base64| % 4 != 0
      invariant |renamed| <= |base64| <= |renamed| + PadLength(|renamed|)
      invariant base64 == renamed + EqualSigns(|base64| - |renamed|)
      decreases |renamed| + PadLength(|renamed|) - |base64|
    {
      base64 := base64 + "=";
    }
    assert base64 == Repadded(renamed);
    var decoded := Atob(base64);
    if decoded.None? {
      return None;
    }
    var bytes := StoreCharCodes(decoded.value);
    var decompressed := ext.inflateRaw(bytes[..]);
    if decompressed.None? {
      return None;
    }
    r := Some(ext.textDecode(decompressed.value));
  }

  /** The default `baseUrl` of `createShareableURL`. */
  const DefaultBaseUrl := "https://example.com/viewer.html"

  /** `createShareableURL` (encode.js:64-67); `None` for an omitted `baseUrl`. */
  method CreateShareableUrl(ext: Externals, markdown: string, baseUrl: Option<string>)
    returns (url: string)
    ensures url == (if baseUrl.Some? then baseUrl.value else DefaultBaseUrl)
                   + "#md=" + EncodeDocument(ext, markdown)
  {
    var compressed := CompressToBase64Url(ext, markdown);
    url := (if baseUrl.Some? then baseUrl.value else DefaultBaseUrl) + "#md=" + compressed;
  }

  /** The `md` value of the fragment of `url`: its hash without the leading "#", parsed as
      URL search parameters. `None` for `null` and for a URL the constructor rejects. */
  function MdParam(ext: Externals, url: string): Option<string> {
    match ext.urlHash(url)
    case None => None
    case Some(hash) =>
      var fragment := if |hash| == 0 then hash else hash[1..];
      SearchParams.Get(SearchParams.Parse(ext.percentDecode, fragment), "md")
  }

  /** `decodeShareableURL` (encode.js:74-84): `None` when the URL does not parse or its
      fragment has no `md` value or an empty one, otherwise whatever decoding that value
      gives. */
  method DecodeShareableUrl(ext: Externals, url: string) returns (r: Option<string>)
    ensures MdParam(ext, url) == None ==> r == None
    ensures MdParam(ext, url) == Some("") ==> r == None
    ensures MdParam(ext, url).Some? && MdParam(ext, url).value != ""
            ==> r == DecodeDocument(ext, MdParam(ext, url).value)
  {
    var compressed := MdParam(ext, url);
    if compressed.None? || compressed.value == "" {
      return None;
    }
    r := DecompressFromBase64Url(ext, compressed.value);
  }

  /** Decoding the token of a document gives the document back when inflate undoes deflate
      and the text decoder undoes the text encoder on that document. */
  lemma DocumentRoundTrip(ext: Externals, text: string)
    requires InflateLossless(ext) && TextRoundTrips(ext, text)
    ensures DecodeDocument(ext, EncodeDocument(ext, text)) == Some(text)
  {
    TokenRoundTrip(ext.deflateRaw(ext.textEncode(text)));
  }

  /** The token of a document is made of `A-Z a-z 0-9 - _` only. */
  lemma DocumentTokenAlphabet(ext: Externals, text: string)
    ensures forall i :: 0 <= i < |EncodeDocument(ext, text)| ==> IsTokenChar(EncodeDocument(ext, text)[i])
  {
    TokenAlphabet(ext.deflateRaw(ext.textEncode(text)));
  }

  /** A token of length 4k+1 decodes to `None`, whatever the libraries do. */
  lemma MalformedLengthIsNull(ext: Externals, token: string)
    requires |token| % 4 == 1
    ensures DecodeDocument(ext, token) == None
  {
    TokenLengthOneMoreRejected(token);
  }

  /** A token holding a character outside `A-Z a-z 0-9 - _ + / =` and ASCII whitespace
      decompresses to `None`, whatever the libraries do. */
  lemma ForeignCharIsNull(ext: Externals, token: string, i: nat)
    requires i < |token|
    requires !IsTokenChar(token[i]) && !IsAlphabetChar(token[i]) && token[i] != '='
             && !IsAsciiWhitespace(token[i])
    ensures DecodeDocument(ext, token) == None
  {
    TokenForeignCharRejected(token, i);
  }

  /** A link made by `createShareableURL` carries its token as the `md` value, that value is
      never empty, and it decodes to the document: so `decodeShareableURL` returns the
      document. The URL parser is required to find the fragment appended to `baseUrl`. */
  lemma LinkRoundTrip(ext: Externals, markdown: string, baseUrl: string)
    requires InflateLossless(ext) && TextRoundTrips(ext, markdown)
    requires DeflateNeverEmpty(ext) && PercentDecodeKeepsPlain(ext)
    requires ext.urlHash(baseUrl + "#md=" + EncodeDocument(ext, markdown))
             == Some("#md=" + EncodeDocument(ext, markdown))
    ensures MdParam(ext, baseUrl + "#md=" + EncodeDocument(ext, markdown))
            == Some(EncodeDocument(ext, markdown))
    ensures EncodeDocument(ext, markdown) != ""
    ensures DecodeDocument(ext, EncodeDocument(ext, markdown)) == Some(markdown)
  {
    var compressed := ext.deflateRaw(ext.textEncode(markdown));
    var token := EncodeDocument(ext, markdown);
    TokenAlphabet(compressed);
    TokenLength(compressed);
    assert |compressed| > 0;
    assert SearchParams.NoPercent(token);
    assert SearchParams.NoPercent("md");
    assert ("#md=" + token)[1..] == "md=" + token + "";
    SearchParams.GetLeadingEntry(ext.percentDecode, token, "");
    DocumentRoundTrip(ext, markdown);
  }
}
