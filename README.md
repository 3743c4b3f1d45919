# Shareable markdown links: a Dafny model of encode.js

The markdown viewer shares a document by putting it in the URL fragment: `#md=<token>`.
`encode.js` builds the token as follows. The text is UTF-8 encoded and raw-deflated. Each
compressed byte becomes a character of a "binary string". That string is base64-encoded
with `btoa`, then rewritten into the URL-safe alphabet: `+` becomes `-`, `/` becomes `_`,
and the `=` padding is dropped. Decoding reverses each step. It undoes the alphabet
rewrite, appends `=` until the length is a multiple of four, calls `atob`, copies the
character codes into a `Uint8Array`, inflates the bytes and decodes the text. Any failure
becomes `null`. `createShareableURL` appends `#md=<token>` to a base URL.
`decodeShareableURL` reads the `md` value back out of the fragment.

The modules:

- `Base64` (base64.dfy): the two browser functions the code relies on.
  - `Btoa` is the base64 encoding of section 4 of RFC 4648, with the padding of
    section 3.2, over a binary string.
  - `Atob` is the forgiving-base64 decode of the WHATWG Infra Standard. It removes ASCII
    whitespace. When the length is a multiple of four, it drops one or two final `=`. It
    fails on a length of the form 4k+1 or on a character outside the alphabet. It
    discards the spare bits of a final short group.
  - Both work on 3-byte ↔ 4-character groups.
- `TokenCodec` (token_codec.dfy): the byte-level token codec.
  - `UrlSafe` is the rewrite of encode.js:31.
  - `UndoUrlSafe` is the rewrite of encode.js:43.
  - `Repadded` is what the padding loop of encode.js:44 produces.
  - `TokenOf` and `BytesOfToken` are the two directions.
- `SearchParams` (search_params.dfy): `new URLSearchParams(s).get(name)` on a string, as
  the WHATWG URL Standard parses `application/x-www-form-urlencoded`.
- `ShareLink` (share_link.dfy): the four functions of encode.js.
  - `CompressToBase64Url` and `DecompressFromBase64Url` are methods that keep the
    source's loops: the byte-to-character loop, the padding `while` loop, and the loop
    that fills the `Uint8Array` (`StoreCharCodes`). Each method is proved equal to a
    specification function: `EncodeDocument` or `DecodeDocument`.
  - `CreateShareableUrl` and `DecodeShareableUrl` are the link layer.
- `Strings` and `Wrappers`: character removal, global one-character replacement,
  splitting, and `Option` (`None` stands for `null`).

The library calls are fields of the datatype `ShareLink.Externals`, passed in as
parameters: `TextEncoder`/`TextDecoder`, pako's `deflateRaw`/`inflateRaw`,
`new URL(url).hash`, and the percent-decoding inside `URLSearchParams`. The round trips
require what these must satisfy, stated as predicates:

- `InflateLossless`: inflating a deflate output gives back its input.
- `TextRoundTrips(ext, text)`: decoding the UTF-8 bytes of one given `text` gives `text`
  back. This is required for the one document in question, not for every string.
- `DeflateNeverEmpty`: a raw deflate stream has at least one byte.
- `PercentDecodeKeepsPlain`: percent-decoding leaves a string without `%` unchanged.

Notes on the code's behaviour that the model keeps:

- `new TextDecoder()` (encode.js:52) is not fatal. Bytes that are not valid UTF-8 decode
  with replacement characters instead of failing, so `textDecode` is total. The decoder
  also drops a leading byte order mark by default.
- `atob` (encode.js:45) accepts `+`, `/`, ASCII whitespace and `=` padding inside a token.
  A character outside `A-Z a-z 0-9 - _ + / =` and ASCII whitespace always makes decoding
  fail (`TokenForeignCharRejected`). Characters inside that set can also make it fail: an
  `=` before the end, or whitespace that upsets the padding count, since the padding loop
  (encode.js:44) counts whitespace that `atob` then removes.
- No code in the repository reads or writes the URL fragment. `src/app.jsx:8` keeps the
  document in component state, and `src/app.jsx:19` saves edits only into that state. So
  no fragment synchroniser is modelled.

## Model

| member | source | states |
|---|---|---|
| `Base64.EncodeUnpadded` | encode.js:31 | every character of the unpadded base64 text is in the RFC 4648 alphabet, and its length is never of the form 4k+1 |
| `Base64.Encode` | encode.js:31 | the padded encoding holds only alphabet characters and `=` |
| `Base64.BtoaOfBinary` | encode.js:31 | `btoa` never throws on the binary string built from a byte sequence, and returns the RFC 4648 encoding of those bytes |
| `Base64.Atob` | encode.js:45 | whatever `atob` returns is a binary string (every code below 256) |
| `Base64.UnpaddedLength` | encode.js:31 | 4 characters per full 3-byte group, then 0, 2 or 3 for a final group of 0, 1 or 2 bytes |
| `Base64.EncodedLength` | encode.js:31 | with padding, 4 characters for every started group of 3 bytes |
| `Base64.DecodeEncodeUnpadded` | encode.js:45 | decoding the unpadded characters gives back the encoded bytes, group by group |
| `Base64.AtobOfEncode` | encode.js:45 | `atob(btoa(s)) == s` for the binary string `s` of any byte sequence |
| `Base64.BinaryStringCodes` | encode.js:23-26 | the byte-to-character loop's string has the array's length, character i has code byte i (below 256), and storing the codes back in a `Uint8Array` rebuilds the bytes |
| `TokenCodec.Repadded` | encode.js:44 | the padding loop ends with a length that is a multiple of 4, keeps the input as a prefix and appends at most 3 characters, all `=` |
| `TokenCodec.TokenIsRenamedUnpadded` | encode.js:31 | the rewrite removes exactly the padding and renames `+` and `/` |
| `TokenCodec.TokenAlphabet` | encode.js:31 | a token holds only `A-Z a-z 0-9 - _`: no `+`, `/` or `=` survives |
| `TokenCodec.TokenLength` | encode.js:31 | a token for n bytes has length 4*(n/3) plus 0, 2 or 3 for n mod 3 = 0, 1, 2 |
| `TokenCodec.UndoRename` | encode.js:43 | undoing the rewrite restores every base64 character |
| `TokenCodec.TokenRepadding` | encode.js:44 | for an encoder-made token, the padding loop restores exactly the stripped padding: 0, 2 or 1 `=` for n mod 3 = 0, 1, 2 |
| `TokenCodec.TokenRoundTrip` | encode.js:43-49 | decoding the token of any byte sequence gives that sequence |
| `TokenCodec.TokenInjective` | encode.js:31 | two byte sequences with the same token are equal |
| `TokenCodec.TokenLengthOneMoreRejected` | encode.js:44-45 | a token of length 4k+1 gets three `=` appended, and decoding it fails |
| `TokenCodec.TokenForeignCharRejected` | encode.js:43-45 | a token holding a character outside `A-Z a-z 0-9 - _ + / =` and ASCII whitespace fails to decode |
| `SearchParams.Get` | encode.js:78 | `get` is null exactly when no entry has the name, and otherwise returns the value of the first entry with that name |
| `SearchParams.GetLeadingEntry` | encode.js:77-78 | in a fragment `md=<v>` followed by nothing or by `&...`, `get('md')` returns `v` unchanged when `v` has no `&`, `+` or `%` |
| `ShareLink.CompressToBase64Url` | encode.js:20-32 | the byte-to-character loop and the rewrite of `btoa`'s output give the token of the deflated UTF-8 bytes |
| `ShareLink.StoreCharCodes` | encode.js:46-49 | the new `Uint8Array` holds each character code modulo 256 |
| `ShareLink.DecompressFromBase64Url` | encode.js:37-56 | the rewrite, the padding loop, `atob`, the fill loop, inflate and text decoding give the decoded document; every failure gives null |
| `ShareLink.CreateShareableUrl` | encode.js:64-67 | the URL is the base URL (or the default one) followed by `#md=` and the document's token |
| `ShareLink.DecodeShareableUrl` | encode.js:74-84 | null when the URL does not parse, or when the fragment has no `md` value or an empty one; otherwise exactly what decompressing that value gives |
| `ShareLink.DocumentRoundTrip` | encode.js:20-56 | `decompressFromBase64Url(compressToBase64Url(s)) == s` when inflate undoes deflate and the text decoder undoes the text encoder on `s` |
| `ShareLink.DocumentTokenAlphabet` | encode.js:20-32 | the token of any document holds only `A-Z a-z 0-9 - _` |
| `ShareLink.MalformedLengthIsNull` | encode.js:38-55 | a token of length 4k+1 decompresses to null, whatever the libraries do |
| `ShareLink.ForeignCharIsNull` | encode.js:38-55 | a token holding a character outside `A-Z a-z 0-9 - _ + / =` and ASCII whitespace decompresses to null, whatever the libraries do |
| `ShareLink.LinkRoundTrip` | encode.js:64-84 | a link built by `createShareableURL` carries its token as the `md` value, that value is never empty, and it decodes to the document when the text decoder undoes the text encoder on it |

## Left out

- The Node.js branches (encode.js:28-30, 40-41) use `Buffer`'s own base64url coder. Only the browser branch (`btoa`/`atob`) is modelled.
- `TextEncoder`, `TextDecoder`, `pako.deflateRaw` and `pako.inflateRaw` are foreign libraries. They are parameters, and `InflateLossless`, `TextRoundTrips` and `DeflateNeverEmpty` state what is required of them. When pako returns `undefined` for truncated input, `TextDecoder` turns that into the empty string. This case is covered by `inflateRaw` returning an empty byte sequence.
- `new URL(url)` is a foreign parser. Only its `hash` is used, and it is a parameter. The percent-decoding (and UTF-8 decoding) of `URLSearchParams` names and values is a parameter too. Splitting at `&` and `=`, the `+`-to-space rule, and the first-match rule of `get` are modelled.
- ShareLink.LinkRoundTrip: requires that the URL parser returns the appended `#md=<token>` as the hash of `baseUrl#md=<token>`. This holds for an absolute base URL without a `#`. URL parsing itself is not modelled.
- ShareLink.DocumentRoundTrip: the round trip is proved only for a document on which the text decoder undoes the text encoder. It fails in two known cases. A document starting with U+FEFF comes back without it, because `new TextDecoder()` drops a leading byte order mark by default (encode.js:52). A JavaScript string with lone surrogates comes back with U+FFFD, because `TextEncoder` replaces them. Dafny strings hold only Unicode scalar values, so the second case cannot be written in the model.
- ShareLink.LinkRoundTrip: carries the same per-document text requirement as `ShareLink.DocumentRoundTrip`, so a document starting with U+FEFF also loses it through a link.
- JavaScript strings are UTF-16, while Dafny strings are sequences of Unicode scalar values. Binary strings (all codes below 256) are the same in both.
- The example script, console output and module export (encode.js:90-122) are I/O and plumbing.
- The rest of the repository is not part of this model: markdown rendering and sanitising (src/utils/markdown.js), the theme, the dialogs and other UI components. These are library calls or rendering.
