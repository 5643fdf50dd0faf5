# Upload gateway: a verified model of the `/upload` pipeline

The gateway is a small Express service in `index.js`. It accepts a JSON body
`{ imageBase64, folder }`, decodes the image from plain base64 or from a
`data:<type>;base64,` URI, and picks a content type and a safe file
extension. It then generates a random object key, writes the object to an
S3-compatible bucket, and answers with the key, a URL (joined onto a
public base URL or presigned for one hour), the content type and the
decoded size. Any failure is answered `400 {ok: false, error}`.

This project models that pipeline in Dafny. It has one module per part:

- `Text` (`text.dfy`): the JavaScript string operations the code relies on.
  - the `\s` class and `replace(/\s/g, "")`
  - `replace(/\/+$/, "")`
  - `split("/")` and `join("/")`
  - the ECMAScript line terminators that `.` in a regular expression does not match
- `Base64` (`base64.dfy`):
  - the acceptance test `/^[A-Za-z0-9+/]+=*$/`
  - the decoder, following Node's lenient `Buffer.from(text, "base64")`
  - the canonical encoder of section 4 of RFC 4648, the partner of that decoder in the round-trip lemmas
- `Payload` (`payload.dfy`):
  - `parseBase64`
  - the data-URI regular expression
  - the two errors it throws
- `ContentType` (`content_type.dfy`): the content-type fallback and the extension clamp.
- `Keys` (`keys.dfy`): `randToken` and the key template.
- `Uri` (`uri.dfy`):
  - `encodeURIComponent` (UTF-8, upper-case `%XX`)
  - `decodeURIComponent`, its inverse, against which `joinUrl` is stated
  - `joinUrl`
- `Upload` (`upload.dfy`):
  - `ObjectStore`, a class standing for the S3 client. Its writes and presigns either succeed or fail, and ghost logs record every request issued to it.
  - `Handle`, a pure function giving the response for every input.
  - `HandleUpload`, an imperative method that follows the handler step by step and is proved to answer as `Handle` says.
- `Wrappers` (`wrappers.dfy`): `Option`, `Result` and `Outcome`.

The random bytes `crypto.randomBytes` returns are parameters (`rand8`,
`rand6`). So is the `mime-types` extension table (`lookup`, a function
returning an optional extension). How the store behaves (`writeFault`,
`signFault`, `signer`) is fixed when the store is constructed.

The decoder is modelled as the code behaves, not as a stricter decoder
would:

- **Padding and trailing groups.** A strict, padding-aware decoder would refuse a text whose length is not a multiple of four, or whose padding is wrong. The code checks only `^[A-Za-z0-9+/]+=*$` and then decodes leniently:
  - any number of trailing `=` is accepted
  - a trailing single character decodes to nothing
  - a trailing group of two or three characters decodes to one or two bytes
- **Empty and near-empty input.** These are handled as follows:
  - `""` (or a value that is not a string) is refused with "Empty base64 string" (`Payload.ParseEmptyInput`)
  - text that is only whitespace, or only `=`, is refused with "Invalid base64 data"
  - `"A"` is accepted and gives an empty buffer (`Payload.ParseLoneCharacter`)
- **Error messages.** These are the code's own: "Missing 'imageBase64'", "Empty base64 string", "Invalid base64 data", and the backend's message or "Upload failed".
- **Empty key segments.** Only trailing slashes are stripped from the folder. A folder made only of slashes is still truthy, so the key starts with `/` and its first segment is empty (`Keys.SlashOnlyFolderKey`).

## Model

| member | source | states |
|---|---|---|
| Text.RemoveWhitespace | index.js:77 | the result is no longer than the input and holds no character of the JavaScript `\s` class |
| Text.RemoveWhitespaceKeeps | index.js:77 | a character occurs in the stripped text exactly when it occurs in the input and is not whitespace |
| Text.RemoveWhitespaceAppend | index.js:77 | stripping whitespace distributes over concatenation |
| Text.RemoveWhitespaceNoop | index.js:77 | a text without whitespace is left unchanged |
| Text.StripTrailingSlashes | index.js:39 | the result is a prefix of the input that does not end in `/`, and everything after it is `/` |
| Text.StripTrailingSlashesUnique | index.js:39 | those three facts determine the stripped string uniquely |
| Text.AllSlashesStripToEmpty | index.js:98 | a string made only of slashes strips to the empty string |
| Text.Split | index.js:40 | `split` yields at least one piece and no piece contains the separator |
| Text.JoinSplit | index.js:40 | joining the pieces of a split gives the original string back |
| Text.SplitJoin | index.js:40 | splitting the join of separator-free pieces gives the pieces back |
| Text.SplitFree | index.js:40 | a string without the separator splits into itself alone |
| Text.SplitCons | index.js:40 | a leading separator starts a new piece; any other leading character extends the first piece |
| Text.SplitAround | index.js:98 | splitting `a + "/" + b` is splitting `a`, then splitting `b` |
| Text.Join | index.js:40 | `parts.join(sep)`: the first piece is a prefix of the result, and the separator occurs in it as soon as there are two pieces; see JoinSplit, SplitJoin |
| Base64.CharOf | index.js:79 | every value 0..63 maps to a character of the class `[A-Za-z0-9+/]` |
| Base64.AlphabetTable | index.js:79-83 | CharOf is RFC 4648's Table 1: `A`-`Z` for 0..25, `a`-`z` for 26..51, `0`-`9` for 52..61, then `+` and `/` |
| Base64.ValueOf | index.js:83 | the value of an alphabet character is the one CharOf maps back to it |
| Base64.ValueOfCharOf | index.js:83 | CharOf and ValueOf are inverse on values 0..63 |
| Base64.DigitRun | index.js:79 | the length of the longest alphabet prefix: that prefix holds only alphabet characters and the next character is not one |
| Base64.IsWellFormed | index.js:79 | the test `/^[A-Za-z0-9+/]+=*$/`: an accepted text is non-empty, starts with an alphabet character and ends with one or with `=`; see WellFormedSplits, WellFormedJoin, NoDigitAfterPadding |
| Base64.WellFormedSplits | index.js:79 | an accepted text is a non-empty alphabet run followed only by `=` |
| Base64.WellFormedJoin | index.js:79 | conversely, any non-empty alphabet run followed by any number of `=` is accepted, with the run as its digits |
| Base64.PaddingAfterRun | index.js:79 | in an accepted text every `=` comes after the alphabet run |
| Base64.NoDigitAfterPadding | index.js:79 | in an accepted text no alphabet character follows an `=` |
| Base64.DecodeDigits | index.js:83 | the decoded length is 3 bytes per group of four characters, plus 0, 1 or 2 bytes for a tail of 1, 2 or 3 characters |
| Base64.Decode | index.js:83 | `Buffer.from(text, "base64")` of an accepted text: its length is 3 bytes per group of four alphabet characters plus 0/1/2 for a tail of 1/2/3, and never more than 3/4 of the text's length; see DecodeEncode, LoneTailIgnored |
| Base64.EncodeDigits | index.js:83 | the reference encoder emits only alphabet characters, 4 per 3 bytes plus 2 or 3 for a partial group |
| Base64.Encode | index.js:83 | the reference encoding, padded, has a length that is a multiple of 4 |
| Base64.GroupBits | index.js:83 | cutting three bytes into four 6-bit values and gluing them back gives the bytes |
| Base64.GroupRoundTrip | index.js:83 | a group of three bytes survives encoding then decoding |
| Base64.DecodeEncodeDigits | index.js:83 | decoding the encoder's alphabet characters gives every byte sequence back |
| Base64.DecodeEncode | index.js:79-83 | the canonical encoding of any non-empty byte sequence passes the acceptance test and decodes to exactly those bytes |
| Base64.LoneTailIgnored | index.js:83 | a single character after the last full group adds no byte: it is dropped without an error |
| Base64.Rfc4648Vectors | index.js:83 | the encoder reproduces the test vectors of section 10 of RFC 4648 |
| Base64.PngSignatureEncoding | index.js:83 | the eight-byte PNG signature encodes as `iVBORw0KGgo=` |
| Payload.TypeRun | index.js:71 | the longest prefix of media-type characters `[a-zA-Z0-9+\-_.\/]`, stopping at the first other character |
| Payload.MatchDataUri | index.js:71 | the data-URI expression: a match captures a non-empty media type of `[a-zA-Z0-9+\-_.\/]` and a non-empty payload without line terminators, and accounts for every character of the input; see MatchDataUriSound, MatchDataUriComplete |
| Payload.SplitDataUri | index.js:68-75 | the media type is `""` exactly when the prefix does not match, and then the whole input is the text to decode; otherwise the text is a strictly shorter, non-empty payload |
| Payload.MatchDataUriSound | index.js:71-75 | a match means the input is `data:`, a non-empty media type, `;base64,` and a non-empty payload without line terminators, and those are the captures |
| Payload.MatchDataUriComplete | index.js:71-75 | every input of that shape matches, capturing exactly its media type and payload |
| Payload.LineBreakDefeatsPrefix | index.js:71 | a data URI whose payload holds a line terminator does not match the prefix expression |
| Payload.ParseBase64 | index.js:63-85 | "Empty base64 string" exactly for a non-string or empty input; a success has a media type made of media-type characters and a buffer at most 3/4 of the input's length; see ParseBareRoundTrip, ParseDataUriRoundTrip, ParseRejectsForeignChar |
| Payload.ParseEmptyInput | index.js:64-66 | "Empty base64 string" is thrown exactly when the input is not a string or is empty |
| Payload.ParseRejectsForeignChar | index.js:77-81 | a character in the decoded text that is neither whitespace, an alphabet character nor `=` makes the input fail with "Invalid base64 data" |
| Payload.ParseRejectsInnerPadding | index.js:79-81 | an `=` followed later by an alphabet character makes the input fail with "Invalid base64 data" |
| Payload.ParseBareRoundTrip | index.js:68-84 | a bare text that, once whitespace is removed, is the canonical encoding of non-empty bytes decodes to those bytes with media type `""` |
| Payload.ParseDataUriRoundTrip | index.js:68-84 | `data:<type>;base64,<payload>` with a single-line payload encoding non-empty bytes yields those bytes and media type `<type>` |
| Payload.ParseRejectsMultilineDataUri | index.js:71-81 | a data URI whose payload spans lines fails with "Invalid base64 data": the prefix does not match and its `:` fails the alphabet test |
| Payload.ParseSize | index.js:83-84 | with n the number of alphabet characters in the accepted text, the size is `n / 4 * 3` plus 0, 1 or 2 bytes for a tail of 1, 2 or 3 characters |
| Payload.ParseLoneCharacter | index.js:79-84 | `"A"` is accepted and decodes to an empty buffer |
| Payload.ParseNotBase64 | index.js:77-81 | `"not-base64-@@@"` fails with "Invalid base64 data" |
| Payload.ParsePngDataUri | index.js:63-85 | `data:image/png;base64,iVBORw0KGgo=` decodes to the 8 PNG signature bytes with media type `image/png` |
| ContentType.Resolve | index.js:93-96 | the resolved extension is always one of png, jpg, jpeg, webp, so an unsafe extension is never chosen; see ResolveContentType, ResolveExtension |
| ContentType.ResolveContentType | index.js:93 | the content type is the declared type, or `application/octet-stream` when none was declared, whatever the extension table says |
| ContentType.ResolveExtension | index.js:95-96 | the extension is the table's when that one is safe, otherwise `png`, including when the table has no entry |
| ContentType.SafeExtensionsUnslashed | index.js:94 | no safe extension contains `/` |
| Keys.TokenChar | index.js:58 | every alphabet index 0..35 gives a character in `A-Z0-9` |
| Keys.TokenAlphabet | index.js:58 | TokenChar indexes the literal alphabet `ABCDEFGHIJKLMNOPQRSTUVWXYZ0123456789` |
| Keys.RandToken | index.js:57-61 | the token has one character per random byte, each in `A-Z0-9` |
| Keys.RandTokenOnto | index.js:58-60 | every character of the 36-character alphabet can be drawn |
| Keys.TokenCharInjective | index.js:58 | distinct alphabet indices give distinct characters |
| Keys.PicksIndex | index.js:60 | a single byte draws the character of index k exactly when the byte is congruent to k modulo 36 |
| Keys.PreimagesCount | index.js:57-61 | of the byte values below n, `n / 36` draw the character of each alphabet index, plus one more for indices below `n % 36` |
| Keys.TokenBias | index.js:57-61 | of the 256 byte values, 8 draw each of `A` to `D` and 7 draw each of the other 32 characters |
| Keys.MakeKey | index.js:98 | a key ends with `<token8>-<token6>.<ext>`, and has nothing before it exactly when the folder is empty; see SlashOnlyFolderKey, FolderTrailingSlashesIgnored |
| Keys.GenerateKey | index.js:98 | a key built from 8 and 6 random bytes ends with a segment of the form `[A-Z0-9]{8}-[A-Z0-9]{6}.<ext>`; see GeneratedKeyLayout |
| Keys.GeneratedKeyLayout | index.js:98 | split on `/`, a key is the stripped folder's segments (none for an empty folder), then one `[A-Z0-9]{8}-[A-Z0-9]{6}.<ext>` segment |
| Keys.SlashOnlyFolderKey | index.js:98 | a folder made only of slashes is truthy but strips to nothing, so the key starts with `/` |
| Keys.FolderTrailingSlashesIgnored | index.js:98 | trailing slashes on a non-empty folder do not change the key |
| Uri.HexDigit | index.js:40 | every hexadecimal digit the encoder writes is an unreserved character |
| Uri.HexValue | index.js:40 | a hexadecimal digit's value is below 16 |
| Uri.HexRoundTrip | index.js:40 | reading back an upper-case hexadecimal digit gives its value |
| Uri.Utf8 | index.js:40 | a character's UTF-8 encoding is 1 to 4 bytes |
| Uri.PercentEncode | index.js:40 | each byte becomes three characters, all unreserved or `%` |
| Uri.EncodeURIComponent | index.js:40 | the encoding holds only unreserved characters and `%`, so an encoded segment never contains `/` |
| Uri.ReadBytes | index.js:40 | reading n escapes gives n bytes |
| Uri.ReadPercent | index.js:40 | `%XX` reads back as the byte it escapes |
| Uri.ReadPercentEncode | index.js:40 | a run of escapes reads back as the bytes it escapes |
| Uri.Utf8RoundTrip | index.js:40 | UTF-8 decoding of a character's bytes gives the character back, and its lead byte announces the sequence length |
| Uri.DecodeEncodedChar | index.js:40 | decoding a character's encoding followed by anything yields the character followed by the decoding of the rest |
| Uri.DecodeEncode | index.js:40 | `decodeURIComponent(encodeURIComponent(s)) == s` for every string |
| Uri.EncodeSegments | index.js:40 | encoding each segment keeps the number of segments |
| Uri.JoinUrl | index.js:38-42 | the URL starts with the base stripped of trailing slashes and one `/`; the rest is each `/`-segment of the key encoded and rejoined, see JoinUrlSegments, JoinUrlRecoversKey, JoinUrlBaseSlashes |
| Uri.JoinUrlSegments | index.js:38-42 | the URL is the stripped base, `/`, and a path whose `/`-separated segments are the key's segments, one to one, each encoded |
| Uri.DecodeEncodedSegments | index.js:40 | decoding each encoded segment and rejoining gives the joined segments |
| Uri.JoinUrlRecoversKey | index.js:38-42 | decoding the URL's path after the base gives exactly the key |
| Uri.JoinUrlBaseSlashes | index.js:39 | trailing slashes on the public base URL make no difference |
| Upload.ErrorMessage | index.js:116 | the error is the caught message when it has one, else "Upload failed", and is never empty |
| Upload.ObjectStore.constructor | index.js:44-55 | a new store holds no object and has logged no request |
| Upload.ObjectStore.Put | index.js:100-107 | a write is logged; on success the object is stored under bucket and key, and on failure nothing is stored |
| Upload.ObjectStore.Presign | index.js:109-111 | a presign is logged and yields the signer's URL or the backend's error; objects are untouched |
| Upload.Prepare | index.js:89-98 | the payload is accepted exactly when `imageBase64` is truthy and decodes; a refusal carries one of the three decoder or handler messages; an accepted payload keeps the decoded buffer and gets a non-empty content type |
| Upload.Handle | index.js:87-118 | the status is 200 exactly for an upload, and otherwise 400 with a non-empty error; an upload needs an accepted payload and a successful write; see HandleSuccess and the lemmas below |
| Upload.HandleUpload | index.js:87-118 | the response is Handle's; exactly one write is issued when the payload is accepted and none otherwise; a presign is issued only after a successful write and only without a public base URL; the store's objects change only by the successful write, which stays even if the presign then fails |
| Upload.HandleMissingPayload | index.js:89-90 | a missing, empty or falsy `imageBase64` is answered 400 "Missing 'imageBase64'", and nothing is prepared for writing |
| Upload.HandleInvalidPayload | index.js:92-116 | a payload the decoder refuses is answered 400 with the decoder's message, and nothing is prepared for writing |
| Upload.HandleWriteFailure | index.js:100-116 | a failed write is answered 400 with the backend's message (or "Upload failed"), and the answer has no key and no URL |
| Upload.HandlePresignFailure | index.js:109-116 | with no public base URL, a presign failure after an accepted payload and a successful write is answered 400 with the backend's message (or "Upload failed") |
| Upload.HandleSuccess | index.js:87-118 | success happens exactly when the payload is accepted, the write succeeds, and a public base URL is configured or presigning succeeds; a success is 200 with the generated key, the resolved content type, the decoded size and a URL joined onto the base if one is configured, else presigned for 3600 seconds; every rejection is 400 with a non-empty error |
| Upload.HandleKeyLayout | index.js:94-98 | every key answered on success ends in a `[A-Z0-9]{8}-[A-Z0-9]{6}.<ext>` segment with a safe extension |
| Upload.HandlePublicUnfoldered | index.js:98-113 | with no folder and a public base URL, an accepted payload is answered 200 with key `<token8>-<token6>.<ext>` joined onto the base |
| Upload.ScenarioEmptyPayload | index.js:89-90 | `imageBase64: ""` is refused before decoding and answered 400 "Missing 'imageBase64'" |
| Upload.ScenarioNotBase64 | index.js:79-116 | `"not-base64-@@@"` is answered 400 "Invalid base64 data" with no write prepared |

## Left out

- Environment loading and the exit on missing variables (index.js:1-36) are not modelled. The bucket and the public base URL are a `Config` value passed in, where `""` means unset.
- The Express wiring is not modelled: JSON body limit, CORS, `/health` and the two `listen` calls (index.js:13-22, 120-125).
- The S3 client's endpoint, credentials and TLS agent (index.js:44-55) are not modelled. Neither is the network and signing behaviour of `s3.send` and `getSignedUrl`. The store is an abstract object whose write and presign succeed or fail.
- Upload.ObjectStore: whether a write or presign fails is fixed for the store's lifetime; a backend whose behaviour changes from call to call is not modelled.
- `crypto.randomBytes` is not modelled: its bytes are the parameters `rand8` and `rand6`. Key uniqueness is probabilistic and is not stated. Only the per-byte distribution is (`Keys.TokenBias`).
- The `mime-types` extension table is not part of this model. It is the parameter `lookup`, which returns an extension or nothing.
- Uri.EncodeURIComponent, Upload.HandleUpload, Upload.HandleSuccess: strings are sequences of Unicode scalar values, so a lone UTF-16 surrogate cannot occur in the model. Such a surrogate can arrive in `folder` as the JSON escape `"\ud800"`, and it makes `encodeURIComponent` throw `URIError`, whether the S3 client calls it while serialising the key or `joinUrl` calls it. The handler then answers 400 "URI malformed". Whether an object is stored first depends on the S3 client and is not part of this model. The model always answers as if the key were encodable.
- Logging (`console.error`) and the scheduling of `async`/`await` are not modelled.
- A `folder` that is not a string, for example a number (whose `replace` would throw), is not modelled. `folder` is a string, and a missing one is `""`.
- A request body that is not an object is not modelled. The body is an `UploadRequest`, and `imageBase64` is a `Payload.Field`: absent, a string, or another JSON value that is truthy or falsy.
- Payload.ParseBareRoundTrip and Payload.ParseDataUriRoundTrip: the round trip requires non-empty bytes. The canonical encoding of no bytes is the empty text, which the code refuses (Payload.ParseEmptyInput for a bare input; for a data URI, the prefix does not match and the `:` then fails the alphabet test).
