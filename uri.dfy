/** `encodeURIComponent` and the public-URL joiner `joinUrl`
    (index.js:38-42), with `decodeURIComponent` as the inverse the
    correctness of the joiner is stated against. */
module Uri {
  import opened Wrappers
  import opened Text
  import opened Base64

  /** The characters `encodeURIComponent` leaves as they are: letters,
      digits and `-_.!~*'()`. */
  predicate IsUnreserved(c: char) {
    'A' <= c <= 'Z' || 'a' <= c <= 'z' || '0' <= c <= '9'
    || c == '-' || c == '_' || c == '.' || c == '!' || c == '~'
    || c == '*' || c == '\'' || c == '(' || c == ')'
  }

  /** An upper-case hexadecimal digit. */
  function HexDigit(v: nat): (c: char)
    requires v < 16
    ensures IsUnreserved(c)
  {
    if v < 10 then ('0' as int + v) as char else ('A' as int + (v - 10)) as char
  }

  /** The value of a hexadecimal digit of either case. */
  function HexValue(c: char): (v: Option<nat>)
    ensures v.Some? ==> v.value < 16
  {
    if '0' <= c <= '9' then Some(c as int - '0' as int)
    else if 'A' <= c <= 'F' then Some(c as int - 'A' as int + 10)
    else if 'a' <= c <= 'f' then Some(c as int - 'a' as int + 10)
    else None
  }

  lemma HexRoundTrip(v: nat)
    requires v < 16
    ensures HexValue(HexDigit(v)) == Some(v)
  {
  }

  /** The UTF-8 encoding of one Unicode scalar value. */
  function Utf8(c: char): (bs: seq<byte>)
    ensures 1 <= |bs| <= 4
  {
    var cp := c as int;
    if cp < 0x80 then [cp]
    else if cp < 0x800 then [0xC0 + cp / 64, 0x80 + cp % 64]
    else if cp < 0x10000 then [0xE0 + cp / 4096, 0x80 + (cp / 64) % 64, 0x80 + cp % 64]
    else [0xF0 + cp / 0x40000, 0x80 + (cp / 4096) % 64, 0x80 + (cp / 64) % 64, 0x80 + cp % 64]
  }

  /** `%XX` for one byte, upper-case hexadecimal. */
  function Percent(b: byte): string {
    ['%', HexDigit(b / 16), HexDigit(b % 16)]
  }

  function PercentEncode(bs: seq<byte>): (s: string)
    ensures |s| == 3 * |bs|
    ensures forall i :: 0 <= i < |s| ==> IsUnreserved(s[i]) || s[i] == '%'
  {
    if bs == [] then [] else Percent(bs[0]) + PercentEncode(bs[1..])
  }

  function EncodeChar(c: char): string {
    if IsUnreserved(c) then [c] else PercentEncode(Utf8(c))
  }

  /** `encodeURIComponent(s)`: unreserved characters stay, every other
      character becomes the `%XX` escapes of its UTF-8 bytes. The result
      holds nothing but unreserved characters and `%`; in particular no `/`. */
  function EncodeURIComponent(s: string): (r: string)
    ensures forall i :: 0 <= i < |r| ==> IsUnreserved(r[i]) || r[i] == '%'
    ensures '/' !in r
  {
    if s == [] then [] else EncodeChar(s[0]) + EncodeURIComponent(s[1..])
  }

  // ---------------------------------------------------------------------
  // decodeURIComponent

  /** The byte of a `%XX` escape. */
  function ReadByte(s: string): (b: Option<byte>)
    requires |s| == 3
  {
    if s[0] != '%' then None
    else match (HexValue(s[1]), HexValue(s[2]))
      case (Some(h), Some(l)) => Some(h * 16 + l)
      case _ => None
  }

  /** The bytes of `n` consecutive `%XX` escapes. */
  function ReadBytes(s: string, n: nat): (bs: Option<seq<byte>>)
    requires |s| == 3 * n
    ensures bs.Some? ==> |bs.value| == n
  {
    if n == 0 then Some([])
    else match (ReadByte(s[..3]), ReadBytes(s[3..], n - 1))
      case (Some(b), Some(rest)) => Some([b] + rest)
      case _ => None
  }

  /** The length of the UTF-8 sequence a lead byte starts, or 0 for a byte
      that cannot start one. */
  function SequenceLength(lead: byte): nat {
    if lead < 0x80 then 1
    else if 0xC0 <= lead < 0xE0 then 2
    else if 0xE0 <= lead < 0xF0 then 3
    else if 0xF0 <= lead < 0xF8 then 4
    else 0
  }

  predicate IsContinuation(b: byte) {
    0x80 <= b < 0xC0
  }

  /** The scalar value a UTF-8 sequence stands for; overlong forms,
      surrogates and values above U+10FFFF are refused, as
      `decodeURIComponent` refuses them. */
  function DecodeUtf8(bs: seq<byte>): Option<char> {
    if |bs| == 1 && bs[0] < 0x80 then Some(bs[0] as char)
    else if |bs| == 2 && 0xC0 <= bs[0] < 0xE0 && IsContinuation(bs[1]) then
      var cp := (bs[0] as int - 0xC0) * 64 + (bs[1] as int - 0x80);
      if cp >= 0x80 then Some(cp as char) else None
    else if |bs| == 3 && 0xE0 <= bs[0] < 0xF0 && IsContinuation(bs[1]) && IsContinuation(bs[2]) then
      var cp := (bs[0] as int - 0xE0) * 4096 + (bs[1] as int - 0x80) * 64 + (bs[2] as int - 0x80);
      if cp >= 0x800 && !(0xD800 <= cp < 0xE000) then Some(cp as char) else None
    else if |bs| == 4 && 0xF0 <= bs[0] < 0xF8 && IsContinuation(bs[1]) && IsContinuation(bs[2])
      && IsContinuation(bs[3]) then
      var cp := (bs[0] as int - 0xF0) * 0x40000 + (bs[1] as int - 0x80) * 4096
        + (bs[2] as int - 0x80) * 64 + (bs[3] as int - 0x80);
      if 0x10000 <= cp < 0x110000 then Some(cp as char) else None
    else None
  }

  /** `decodeURIComponent(s)`, with None where it throws `URIError`. */
  function DecodeURIComponent(s: string): Option<string>
    decreases |s|
  {
    if s == [] then Some([])
    else if s[0] != '%' then
      match DecodeURIComponent(s[1..])
      case Some(rest) => Some([s[0]] + rest)
      case None => None
    else if |s| < 3 then None
    else match ReadByte(s[..3])
      case None => None
      case Some(lead) =>
        var n := SequenceLength(lead);
        if n == 0 || |s| < 3 * n then None
        else match (ReadBytes(s[..3 * n], n), DecodeURIComponent(s[3 * n..]))
          case (Some(bs), Some(rest)) =>
            (match DecodeUtf8(bs)
             case Some(c) => Some([c] + rest)
             case None => None)
          case _ => None
  }

  // ---------------------------------------------------------------------
  // Round trip

  lemma ReadPercent(b: byte)
    ensures ReadByte(Percent(b)) == Some(b)
  {
    HexRoundTrip(b / 16);
    HexRoundTrip(b % 16);
  }

  lemma {:induction false} ReadPercentEncode(bs: seq<byte>)
    ensures ReadBytes(PercentEncode(bs), |bs|) == Some(bs)
  {
    if bs != [] {
      var s := PercentEncode(bs);
      assert s[..3] == Percent(bs[0]) && s[3..] == PercentEncode(bs[1..]);
      ReadPercent(bs[0]);
      ReadPercentEncode(bs[1..]);
      assert bs == [bs[0]] + bs[1..];
    }
  }

  lemma Utf8Two(cp: int)
    requires 0x80 <= cp < 0x800
    ensures (cp / 64) * 64 + cp % 64 == cp && 2 <= cp / 64 < 32
  {
  }

  lemma Utf8Three(cp: int)
    requires 0x800 <= cp < 0x10000
    ensures (cp / 4096) * 4096 + ((cp / 64) % 64) * 64 + cp % 64 == cp
    ensures cp / 4096 < 16
  {
    var q := cp / 64;
    assert q / 64 == cp / 4096;
  }

  lemma Utf8Four(cp: int)
    requires 0x10000 <= cp < 0x110000
    ensures (cp / 0x40000) * 0x40000 + ((cp / 4096) % 64) * 4096 + ((cp / 64) % 64) * 64 + cp % 64 == cp
    ensures cp / 0x40000 < 5
  {
    var q := cp / 64;
    assert q / 64 == cp / 4096;
    var p := cp / 4096;
    assert p / 64 == cp / 0x40000;
  }

  /** Decoding the UTF-8 bytes of a character gives the character back,
      and the lead byte announces the length of the sequence. */
  lemma Utf8RoundTrip(c: char)
    ensures SequenceLength(Utf8(c)[0]) == |Utf8(c)|
    ensures DecodeUtf8(Utf8(c)) == Some(c)
  {
    var cp := c as int;
    if cp < 0x80 {
    } else if cp < 0x800 {
      Utf8Two(cp);
    } else if cp < 0x10000 {
      Utf8Three(cp);
    } else {
      Utf8Four(cp);
    }
  }

  /** Decoding the escape of one character, followed by anything, yields
      that character followed by the decoding of the rest. */
  lemma DecodeEncodedChar(c: char, rest: string)
    ensures DecodeURIComponent(EncodeChar(c) + rest)
      == match DecodeURIComponent(rest) case Some(r) => Some([c] + r) case None => None
  {
    var s := EncodeChar(c) + rest;
    if IsUnreserved(c) {
      assert s[0] == c && s[1..] == rest;
    } else {
      var bs := Utf8(c);
      var n := |bs|;
      var e := PercentEncode(bs);
      assert s[..3] == e[..3] == Percent(bs[0]);
      ReadPercent(bs[0]);
      Utf8RoundTrip(c);
      assert s[..3 * n] == e && s[3 * n..] == rest;
      ReadPercentEncode(bs);
    }
  }

  /** Round trip: `decodeURIComponent(encodeURIComponent(s)) == s`. */
  lemma {:induction false} DecodeEncode(s: string)
    ensures DecodeURIComponent(EncodeURIComponent(s)) == Some(s)
  {
    if s != [] {
      DecodeEncode(s[1..]);
      DecodeEncodedChar(s[0], EncodeURIComponent(s[1..]));
      assert [s[0]] + s[1..] == s;
    }
  }

  // ---------------------------------------------------------------------
  // joinUrl

  /** `key.split("/").map(encodeURIComponent)`. */
  function EncodeSegments(parts: seq<string>): (r: seq<string>)
    ensures |r| == |parts|
  {
    seq(|parts|, i requires 0 <= i < |parts| => EncodeURIComponent(parts[i]))
  }

  /** `joinUrl(base, key)`: the base without its trailing slashes, a `/`,
      then each `/`-separated segment of the key percent-encoded on its own
      and the segments joined again with `/`. */
  function JoinUrl(base: string, key: string): (url: string)
    ensures var b := StripTrailingSlashes(base); |url| > |b| && url[..|b| + 1] == b + "/"
  {
    StripTrailingSlashes(base) + "/" + Join(EncodeSegments(Split(key, '/')), '/')
  }

  /** The path a URL from JoinUrl has after the base and its `/`. */
  function UrlPath(base: string, url: string): string
    requires |url| > |StripTrailingSlashes(base)|
  {
    url[|StripTrailingSlashes(base)| + 1..]
  }

  /** The URL is the stripped base, `/` and a path whose `/`-separated
      segments are the key's segments, one to one, each encoded: the key's
      segment count is kept and no encoded segment holds a `/`. */
  lemma JoinUrlSegments(base: string, key: string)
    ensures var url := JoinUrl(base, key);
      var b := StripTrailingSlashes(base);
      |url| > |b| && url[..|b| + 1] == b + "/"
      && Split(UrlPath(base, url), '/') == EncodeSegments(Split(key, '/'))
      && |Split(UrlPath(base, url), '/')| == |Split(key, '/')|
  {
    var url := JoinUrl(base, key);
    var b := StripTrailingSlashes(base);
    var path := Join(EncodeSegments(Split(key, '/')), '/');
    assert url == (b + "/") + path;
    assert url[|b| + 1..] == path;
    SplitJoin(EncodeSegments(Split(key, '/')), '/');
  }

  /** Decoding every segment of a URL path and joining them with `/`. */
  function DecodePath(path: string): Option<string> {
    DecodeSegments(Split(path, '/'))
  }

  function DecodeSegments(parts: seq<string>): Option<string>
    decreases |parts|
  {
    if |parts| == 0 then Some([])
    else match (DecodeURIComponent(parts[0]), DecodeSegments(parts[1..]))
      case (Some(p), Some(rest)) => Some(if |parts| == 1 then p else p + "/" + rest)
      case _ => None
  }

  lemma {:induction false} DecodeEncodedSegments(parts: seq<string>)
    ensures DecodeSegments(EncodeSegments(parts)) == Some(Join(parts, '/'))
    decreases |parts|
  {
    if |parts| > 0 {
      DecodeEncode(parts[0]);
      assert EncodeSegments(parts)[1..] == EncodeSegments(parts[1..]);
      DecodeEncodedSegments(parts[1..]);
    }
  }

  /** The key can be read back from the URL: decoding the path after the
      base gives exactly the key. */
  lemma JoinUrlRecoversKey(base: string, key: string)
    ensures var url := JoinUrl(base, key);
      |url| > |StripTrailingSlashes(base)| && DecodePath(UrlPath(base, url)) == Some(key)
  {
    JoinUrlSegments(base, key);
    DecodeEncodedSegments(Split(key, '/'));
    JoinSplit(key, '/');
  }

  /** Trailing slashes on the configured base make no difference. */
  lemma JoinUrlBaseSlashes(base: string, slashes: string, key: string)
    requires forall i :: 0 <= i < |slashes| ==> slashes[i] == '/'
    ensures JoinUrl(base + slashes, key) == JoinUrl(base, key)
  {
    var s := base + slashes;
    var p := StripTrailingSlashes(base);
    assert s[..|base|] == base;
    assert s[..|p|] == p;
    StripTrailingSlashesUnique(s, p);
  }
}
