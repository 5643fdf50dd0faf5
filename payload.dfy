/** The payload decoder `parseBase64` (index.js:63-85): an optional
    `data:<type>;base64,` prefix, whitespace removal, the alphabet check and
    Node's lenient base64 decoding. */
module Payload {
  import opened Wrappers
  import opened Text
  import opened Base64

  /** A field of the JSON request body as JavaScript sees it: absent
      (`undefined`), a string, or some other JSON value, which is truthy or
      falsy (`null`, `false`, `0`). */
  datatype Field = Absent | Str(s: string) | NonString(truthy: bool) {
    /** JavaScript truthiness, as tested by `!imageBase64`. */
    predicate Truthy() {
      match this
      case Absent => false
      case Str(s) => s != []
      case NonString(t) => t
    }
  }

  /** The two errors `parseBase64` throws. */
  datatype ParseError = EmptyInput | InvalidData {
    function Message(): string {
      match this
      case EmptyInput => "Empty base64 string"
      case InvalidData => "Invalid base64 data"
    }
  }

  /** `{ buffer, mimeType }`, the value `parseBase64` returns. */
  datatype Decoded = Decoded(buffer: seq<byte>, mimeType: string)

  /** The regular-expression class `[a-zA-Z0-9+\-_.\/]` of the media type. */
  predicate IsMediaTypeChar(c: char) {
    'a' <= c <= 'z' || 'A' <= c <= 'Z' || '0' <= c <= '9'
    || c == '+' || c == '-' || c == '_' || c == '.' || c == '/'
  }

  predicate AllMediaTypeChars(s: string) {
    forall i :: 0 <= i < |s| ==> IsMediaTypeChar(s[i])
  }

  /** The length of the longest prefix of `s` made of media-type characters. */
  function TypeRun(s: string): (n: nat)
    ensures n <= |s| && AllMediaTypeChars(s[..n])
    ensures n < |s| ==> !IsMediaTypeChar(s[n])
  {
    if s != [] && IsMediaTypeChar(s[0]) then
      assert s[..1 + TypeRun(s[1..])] == [s[0]] + s[1..][..TypeRun(s[1..])];
      1 + TypeRun(s[1..])
    else 0
  }

  /** The regular expression `/^data:([a-zA-Z0-9+\-_.\/]+);base64,(.+)$/`
      without the `m` flag: the captured media type and payload, or None.
      The media-type class has no `;`, so the first group is the maximal run
      of media-type characters after `data:`; `.` matches no line
      terminator, so the payload must be free of them. */
  function MatchDataUri(s: string): (m: Option<(string, string)>)
    ensures m.Some? ==> |m.value.0| >= 1 && AllMediaTypeChars(m.value.0)
    ensures m.Some? ==> |m.value.1| >= 1 && !HasLineTerminator(m.value.1)
    ensures m.Some? ==> |s| == 13 + |m.value.0| + |m.value.1|
  {
    if |s| >= 5 && s[..5] == "data:" then
      var rest := s[5..];
      var n := TypeRun(rest);
      var after := rest[n..];
      if n >= 1 && |after| > 8 && after[..8] == ";base64," && !HasLineTerminator(after[8..])
      then Some((rest[..n], after[8..]))
      else None
    else None
  }

  /** The media type and the encoded text `parseBase64` goes on with
      (index.js:68-75): the captures of the prefix, or `""` and the whole
      input when the prefix does not match. */
  function SplitDataUri(s: string): (r: (string, string))
    ensures AllMediaTypeChars(r.0)
    ensures r.0 == "" <==> MatchDataUri(s).None?
    ensures r.0 == "" ==> r.1 == s
    ensures r.0 != "" ==> |r.1| >= 1 && |r.1| < |s|
  {
    match MatchDataUri(s)
    case Some(m) => m
    case None => ("", s)
  }

  /** `parseBase64(input)`: either the decoded buffer and the declared media
      type, or the error it throws. */
  function ParseBase64(input: Field): (r: Result<Decoded, ParseError>)
    ensures r == Failure(EmptyInput) <==> !(input.Str? && input.s != [])
    ensures r.Success? ==> AllMediaTypeChars(r.value.mimeType)
    ensures r.Success? ==> 4 * |r.value.buffer| <= 3 * |input.s|
  {
    if !input.Str? || input.s == [] then Failure(EmptyInput)
    else
      var (mimeType, text) := SplitDataUri(input.s);
      var cleaned := RemoveWhitespace(text);
      if !IsWellFormed(cleaned) then Failure(InvalidData)
      else Success(Decoded(Decode(cleaned), mimeType))
  }

  // ---------------------------------------------------------------------
  // The prefix match

  lemma {:induction false} TypeRunStops(t: string, rest: string)
    requires AllMediaTypeChars(t)
    requires rest != [] && !IsMediaTypeChar(rest[0])
    ensures TypeRun(t + rest) == |t|
    decreases |t|
  {
    if t == [] {
      assert t + rest == rest;
    } else {
      TypeRunStops(t[1..], rest);
      assert (t + rest)[1..] == t[1..] + rest;
    }
  }

  /** What the prefix match captures: the input is `data:`, a non-empty
      media type, `;base64,` and a non-empty payload without line
      terminators. */
  lemma MatchDataUriSound(s: string)
    requires MatchDataUri(s).Some?
    ensures var (t, r) := MatchDataUri(s).value;
      s == "data:" + t + ";base64," + r
      && |t| >= 1 && AllMediaTypeChars(t) && |r| >= 1 && !HasLineTerminator(r)
  {
    var (t, r) := MatchDataUri(s).value;
    var rest := s[5..];
    var n := TypeRun(rest);
    assert rest == rest[..n] + rest[n..];
    assert rest[n..] == rest[n..][..8] + rest[n..][8..];
    assert s == s[..5] + rest;
  }

  /** Every input of that shape matches, with exactly those captures. */
  lemma MatchDataUriComplete(t: string, r: string)
    requires |t| >= 1 && AllMediaTypeChars(t) && |r| >= 1 && !HasLineTerminator(r)
    ensures MatchDataUri("data:" + t + ";base64," + r) == Some((t, r))
  {
    var s := "data:" + t + ";base64," + r;
    assert s[..5] == "data:";
    assert s[5..] == t + (";base64," + r);
    TypeRunStops(t, ";base64," + r);
    assert s[5..][..|t|] == t;
    assert s[5..][|t|..] == ";base64," + r;
  }

  /** A data URI whose payload holds a line break does not match the prefix
      expression, whatever its media type. */
  lemma {:induction false} LineBreakDefeatsPrefix(t: string, r: string)
    requires AllMediaTypeChars(t) && HasLineTerminator(r)
    ensures MatchDataUri("data:" + t + ";base64," + r) == None
  {
    var s := "data:" + t + ";base64," + r;
    assert s[5..] == t + (";base64," + r);
    TypeRunStops(t, ";base64," + r);
    assert s[5..][|t|..] == ";base64," + r;
    assert (";base64," + r)[8..] == r;
  }

  // ---------------------------------------------------------------------
  // Decoding

  /** Characters a text that passes the acceptance test can hold. */
  predicate IsEncodingChar(c: char) {
    IsBase64Char(c) || c == '='
  }

  lemma WellFormedChars(s: string, c: char)
    requires IsWellFormed(s) && c in s
    ensures IsEncodingChar(c)
  {
    WellFormedSplits(s);
    var n := DigitRun(s);
    var i :| 0 <= i < |s| && s[i] == c;
    if i < n {
      assert s[..n][i] == c;
    } else {
      assert s[n..][i - n] == c;
    }
  }

  lemma EncodeChars(b: seq<byte>, c: char)
    requires c in Encode(b)
    ensures IsEncodingChar(c)
  {
    var d := EncodeDigits(b);
    var p := Padding(|b|);
    var i :| 0 <= i < |d + p| && (d + p)[i] == c;
    if i < |d| {
      assert d[i] == c;
    } else {
      assert p[i - |d|] == c;
    }
  }

  /** The empty input, and anything that is not a string, fails with
      "Empty base64 string"; a non-empty string never does. */
  lemma ParseEmptyInput(input: Field)
    ensures ParseBase64(input) == Failure(EmptyInput) <==> !(input.Str? && input.s != [])
  {
  }

  /** A character outside the alphabet, `=` and whitespace anywhere in the
      text that is decoded fails the input with "Invalid base64 data". */
  lemma ParseRejectsForeignChar(s: string, i: nat)
    requires s != []
    requires i < |SplitDataUri(s).1|
    requires !IsWhitespace(SplitDataUri(s).1[i]) && !IsEncodingChar(SplitDataUri(s).1[i])
    ensures ParseBase64(Str(s)) == Failure(InvalidData)
  {
    var text := SplitDataUri(s).1;
    var c := text[i];
    RemoveWhitespaceKeeps(text, c);
    if IsWellFormed(RemoveWhitespace(text)) {
      WellFormedChars(RemoveWhitespace(text), c);
    }
  }

  /** Padding followed by more alphabet characters (two encodings pasted
      together, say) fails with "Invalid base64 data". */
  lemma ParseRejectsInnerPadding(s: string, i: nat, j: nat)
    requires s != []
    requires i < j < |RemoveWhitespace(SplitDataUri(s).1)|
    requires RemoveWhitespace(SplitDataUri(s).1)[i] == '='
    requires IsBase64Char(RemoveWhitespace(SplitDataUri(s).1)[j])
    ensures ParseBase64(Str(s)) == Failure(InvalidData)
  {
    var cleaned := RemoveWhitespace(SplitDataUri(s).1);
    if IsWellFormed(cleaned) {
      NoDigitAfterPadding(cleaned, i, j);
    }
  }

  /** Round trip for a bare payload: any text that is the canonical encoding
      of a non-empty byte sequence once its whitespace is removed decodes to
      those bytes, with no media type. */
  lemma ParseBareRoundTrip(b: seq<byte>, s: string)
    requires |b| > 0 && RemoveWhitespace(s) == Encode(b)
    ensures ParseBase64(Str(s)) == Success(Decoded(b, ""))
  {
    if MatchDataUri(s).Some? {
      MatchDataUriSound(s);
      assert s[4] == ':';
      RemoveWhitespaceKeeps(s, ':');
      EncodeChars(b, ':');
      assert false;
    }
    DecodeEncode(b);
  }

  /** Round trip for a data URI: the media type is captured and only the
      payload after the prefix is decoded; whitespace other than line
      terminators may be spread through the payload. */
  lemma ParseDataUriRoundTrip(t: string, b: seq<byte>, r: string)
    requires |t| >= 1 && AllMediaTypeChars(t)
    requires !HasLineTerminator(r)
    requires |b| > 0 && RemoveWhitespace(r) == Encode(b)
    ensures ParseBase64(Str("data:" + t + ";base64," + r)) == Success(Decoded(b, t))
  {
    assert r != [];
    MatchDataUriComplete(t, r);
    DecodeEncode(b);
  }

  /** As written, a data URI wrapped over several lines is rejected with
      "Invalid base64 data": the prefix does not match, and the `:` of the
      unstripped prefix then fails the alphabet check. */
  lemma ParseRejectsMultilineDataUri(t: string, r: string)
    requires AllMediaTypeChars(t) && HasLineTerminator(r)
    ensures ParseBase64(Str("data:" + t + ";base64," + r)) == Failure(InvalidData)
  {
    var s := "data:" + t + ";base64," + r;
    LineBreakDefeatsPrefix(t, r);
    assert s[4] == ':';
    ParseRejectsForeignChar(s, 4);
  }

  /** The decoded size is three bytes per full group of four alphabet
      characters plus one or two for a trailing group of two or three. */
  lemma ParseSize(input: Field)
    requires ParseBase64(input).Success?
    ensures var n := DigitRun(RemoveWhitespace(SplitDataUri(input.s).1));
      |ParseBase64(input).value.buffer| == n / 4 * 3 + (if n % 4 <= 1 then 0 else n % 4 - 1)
  {
  }

  /** A single alphabet character is accepted and decodes to an empty
      buffer: the lenient decoder drops the incomplete group. */
  lemma ParseLoneCharacter()
    ensures ParseBase64(Str("A")) == Success(Decoded([], ""))
  {
    assert RemoveWhitespace("A") == "A";
    assert DigitRun("A") == 1;
  }

  /** "not-base64-@@@" is refused with "Invalid base64 data": its `-` is
      outside the alphabet. */
  lemma ParseNotBase64()
    ensures ParseBase64(Str("not-base64-@@@")) == Failure(InvalidData)
  {
    var s := "not-base64-@@@";
    assert s[..5] != "data:" by {
      assert s[..5][0] == 'n';
    }
    assert SplitDataUri(s) == ("", s);
    assert s[3] == '-';
    ParseRejectsForeignChar(s, 3);
  }

  /** A canonical encoding holds no whitespace. */
  lemma EncodeUnspaced(b: seq<byte>)
    ensures RemoveWhitespace(Encode(b)) == Encode(b)
  {
    var e := Encode(b);
    forall i | 0 <= i < |e|
      ensures !IsWhitespace(e[i])
    {
      EncodeChars(b, e[i]);
    }
    RemoveWhitespaceNoop(e);
  }

  /** The media type of the PNG example is made of media-type characters. */
  lemma PngMediaType()
    ensures AllMediaTypeChars("image/png")
  {
  }

  /** The encoding of the PNG signature holds no line terminator. */
  lemma PngPayloadSingleLine()
    ensures !HasLineTerminator("iVBORw0KGgo=")
  {
    var b: seq<byte> := [0x89, 0x50, 0x4E, 0x47, 0x0D, 0x0A, 0x1A, 0x0A];
    var r := "iVBORw0KGgo=";
    PngSignatureEncoding();
    forall i | 0 <= i < |r|
      ensures !IsLineTerminator(r[i])
    {
      EncodeChars(b, r[i]);
    }
  }

  lemma PngDataUriParts()
    ensures "data:" + "image/png" + ";base64," + "iVBORw0KGgo=" == "data:image/png;base64,iVBORw0KGgo="
  {
  }

  /** The eight-byte PNG signature, sent as a data URI, decodes to those
      eight bytes with media type "image/png". */
  lemma ParsePngDataUri()
    ensures ParseBase64(Str("data:image/png;base64,iVBORw0KGgo="))
      == Success(Decoded([0x89, 0x50, 0x4E, 0x47, 0x0D, 0x0A, 0x1A, 0x0A], "image/png"))
  {
    var b: seq<byte> := [0x89, 0x50, 0x4E, 0x47, 0x0D, 0x0A, 0x1A, 0x0A];
    PngMediaType();
    PngPayloadSingleLine();
    PngDataUriParts();
    PngSignatureEncoding();
    EncodeUnspaced(b);
    ParseDataUriRoundTrip("image/png", b, "iVBORw0KGgo=");
  }
}
