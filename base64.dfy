/** Base64 with the alphabet of section 4 of RFC 4648, as `Buffer.from(text,
    "base64")` in Node.js decodes it and as a canonical encoder writes it.

    Node's decoder is lenient: once the text has passed the gateway's own
    check (one or more alphabet characters followed only by `=`), it decodes
    the alphabet characters four at a time, turns a trailing group of two or
    three characters into one or two bytes, drops a trailing group of one
    character, and ignores however many `=` follow. */
module Base64 {

  type byte = x: int | 0 <= x < 256

  /** A six-bit value: the index of a character in the alphabet. */
  type sextet = x: int | 0 <= x < 64

  /** The regular-expression class `[A-Za-z0-9+/]`. */
  predicate IsBase64Char(c: char) {
    'A' <= c <= 'Z' || 'a' <= c <= 'z' || '0' <= c <= '9' || c == '+' || c == '/'
  }

  /** The alphabet "A".."Z", "a".."z", "0".."9", "+", "/" of RFC 4648,
      Table 1, indexed by value. */
  function CharOf(v: sextet): (c: char)
    ensures IsBase64Char(c)
  {
    if v < 26 then ('A' as int + v) as char
    else if v < 52 then ('a' as int + (v - 26)) as char
    else if v < 62 then ('0' as int + (v - 52)) as char
    else if v == 62 then '+'
    else '/'
  }

  /** CharOf is the alphabet of RFC 4648, Table 1: "A".."Z" for 0..25,
      "a".."z" for 26..51, "0".."9" for 52..61, then "+" and "/". */
  lemma AlphabetTable()
    ensures forall v :: 0 <= v < 26 ==> CharOf(v) == "ABCDEFGHIJKLMNOPQRSTUVWXYZ"[v]
    ensures forall v :: 26 <= v < 52 ==> CharOf(v) == "abcdefghijklmnopqrstuvwxyz"[v - 26]
    ensures forall v :: 52 <= v < 62 ==> CharOf(v) == "0123456789"[v - 52]
    ensures CharOf(62) == '+' && CharOf(63) == '/'
  {
  }

  /** The value of an alphabet character: the inverse of CharOf. */
  function ValueOf(c: char): (v: sextet)
    requires IsBase64Char(c)
    ensures CharOf(v) == c
  {
    if 'A' <= c <= 'Z' then c as int - 'A' as int
    else if 'a' <= c <= 'z' then c as int - 'a' as int + 26
    else if '0' <= c <= '9' then c as int - '0' as int + 52
    else if c == '+' then 62
    else 63
  }

  lemma ValueOfCharOf(v: sextet)
    ensures ValueOf(CharOf(v)) == v
  {
  }

  predicate AllBase64(s: string) {
    forall i :: 0 <= i < |s| ==> IsBase64Char(s[i])
  }

  predicate AllPadding(s: string) {
    forall i :: 0 <= i < |s| ==> s[i] == '='
  }

  /** The length of the longest prefix of `s` made of alphabet characters. */
  function DigitRun(s: string): (n: nat)
    ensures n <= |s| && AllBase64(s[..n])
    ensures n < |s| ==> !IsBase64Char(s[n])
  {
    if s != [] && IsBase64Char(s[0]) then
      assert s[..1 + DigitRun(s[1..])] == [s[0]] + s[1..][..DigitRun(s[1..])];
      1 + DigitRun(s[1..])
    else 0
  }

  /** The gateway's acceptance test, the regular expression
      `/^[A-Za-z0-9+/]+=*$/`: one or more alphabet characters, then only `=`.
      Neither the number of characters nor the number of `=` is checked. */
  predicate IsWellFormed(s: string)
    ensures IsWellFormed(s) ==> |s| >= 1 && IsBase64Char(s[0]) && (s[|s| - 1] == '=' || IsBase64Char(s[|s| - 1]))
  {
    var n := DigitRun(s);
    n >= 1 && AllPadding(s[n..])
  }

  /** A well-formed text is its alphabet run followed by padding. */
  lemma WellFormedSplits(s: string)
    requires IsWellFormed(s)
    ensures s == s[..DigitRun(s)] + s[DigitRun(s)..]
    ensures |s[..DigitRun(s)]| >= 1 && AllBase64(s[..DigitRun(s)]) && AllPadding(s[DigitRun(s)..])
  {
  }

  /** In an accepted text every `=` comes after the alphabet run. */
  lemma PaddingAfterRun(s: string, k: nat)
    requires IsWellFormed(s) && k < |s| && s[k] == '='
    ensures k >= DigitRun(s)
  {
    var n := DigitRun(s);
    forall m | 0 <= m < n
      ensures IsBase64Char(s[m])
    {
      assert s[..n][m] == s[m];
    }
  }

  /** In an accepted text no alphabet character follows an `=`. */
  lemma NoDigitAfterPadding(s: string, i: nat, j: nat)
    requires IsWellFormed(s) && i < j < |s| && s[i] == '='
    ensures !IsBase64Char(s[j])
  {
    PaddingAfterRun(s, i);
    var n := DigitRun(s);
    assert s[n..][j - n] == s[j];
  }

  /** Conversely, any non-empty run of alphabet characters followed by any
      number of `=` is well formed, and its alphabet run is exactly the
      digits. */
  lemma {:induction false} WellFormedJoin(d: string, pad: string)
    requires |d| >= 1 && AllBase64(d) && AllPadding(pad)
    ensures DigitRun(d + pad) == |d|
    ensures IsWellFormed(d + pad)
  {
    RunOfDigitsThenPadding(d, pad);
    assert (d + pad)[|d|..] == pad;
  }

  lemma {:induction false} RunOfDigitsThenPadding(d: string, pad: string)
    requires AllBase64(d) && AllPadding(pad)
    ensures DigitRun(d + pad) == |d|
    decreases |d|
  {
    if d == [] {
      assert d + pad == pad;
    } else {
      RunOfDigitsThenPadding(d[1..], pad);
      assert (d + pad)[1..] == d[1..] + pad;
    }
  }

  /** The bytes of one full group of four characters. */
  function DecodeGroup(v0: sextet, v1: sextet, v2: sextet, v3: sextet): seq<byte> {
    [v0 * 4 + v1 / 16, (v1 % 16) * 16 + v2 / 4, (v2 % 4) * 64 + v3]
  }

  /** Node's decoding of a run of alphabet characters: three bytes per full
      group, then one byte for a tail of two characters, two for a tail of
      three and none for a tail of one. */
  function DecodeDigits(d: string): (b: seq<byte>)
    requires AllBase64(d)
    ensures |b| == |d| / 4 * 3 + (if |d| % 4 <= 1 then 0 else |d| % 4 - 1)
    decreases |d|
  {
    if |d| >= 4 then
      DecodeGroup(ValueOf(d[0]), ValueOf(d[1]), ValueOf(d[2]), ValueOf(d[3])) + DecodeDigits(d[4..])
    else if |d| == 3 then
      DecodeGroup(ValueOf(d[0]), ValueOf(d[1]), ValueOf(d[2]), 0)[..2]
    else if |d| == 2 then
      DecodeGroup(ValueOf(d[0]), ValueOf(d[1]), 0, 0)[..1]
    else []
  }

  /** `Buffer.from(s, "base64")` for a text that passed the acceptance test:
      the padding is ignored. */
  function Decode(s: string): (b: seq<byte>)
    requires IsWellFormed(s)
    ensures var n := DigitRun(s); |b| == n / 4 * 3 + (if n % 4 <= 1 then 0 else n % 4 - 1)
    ensures 4 * |b| <= 3 * |s|
  {
    DecodeDigits(s[..DigitRun(s)])
  }

  /** The characters of one full group of three bytes. */
  function EncodeGroup(b0: byte, b1: byte, b2: byte): string {
    [CharOf(b0 / 4), CharOf((b0 % 4) * 16 + b1 / 16), CharOf((b1 % 16) * 4 + b2 / 64), CharOf(b2 % 64)]
  }

  /** The alphabet characters of the canonical encoding, without padding;
      the unused low bits of a partial group are zero. */
  function EncodeDigits(b: seq<byte>): (d: string)
    ensures AllBase64(d)
    ensures |d| == |b| / 3 * 4 + (if |b| % 3 == 0 then 0 else |b| % 3 + 1)
    decreases |b|
  {
    if |b| >= 3 then EncodeGroup(b[0], b[1], b[2]) + EncodeDigits(b[3..])
    else if |b| == 2 then EncodeGroup(b[0], b[1], 0)[..3]
    else if |b| == 1 then EncodeGroup(b[0], 0, 0)[..2]
    else []
  }

  /** The `=` characters that complete the last group to four characters. */
  function Padding(n: nat): (p: string)
    ensures AllPadding(p)
    ensures (n / 3 * 4 + (if n % 3 == 0 then 0 else n % 3 + 1) + |p|) % 4 == 0
  {
    if n % 3 == 1 then "==" else if n % 3 == 2 then "=" else ""
  }

  /** The canonical encoding of section 4 of RFC 4648. */
  function Encode(b: seq<byte>): (s: string)
    ensures |s| % 4 == 0
  {
    EncodeDigits(b) + Padding(|b|)
  }

  lemma DivMod16(q: int, r: int)
    requires 0 <= q && 0 <= r < 16
    ensures (q * 16 + r) / 16 == q && (q * 16 + r) % 16 == r
  {
  }

  lemma DivMod4(q: int, r: int)
    requires 0 <= q && 0 <= r < 4
    ensures (q * 4 + r) / 4 == q && (q * 4 + r) % 4 == r
  {
  }

  /** The arithmetic of one group: cutting three bytes into four sextets and
      gluing the sextets back gives the bytes. */
  lemma GroupBits(b0: byte, b1: byte, b2: byte)
    ensures var v0, v1, v2, v3 := b0 / 4, (b0 % 4) * 16 + b1 / 16, (b1 % 16) * 4 + b2 / 64, b2 % 64;
      v0 * 4 + v1 / 16 == b0 && (v1 % 16) * 16 + v2 / 4 == b1 && (v2 % 4) * 64 + v3 == b2
  {
    DivMod16(b0 % 4, b1 / 16);
    DivMod4(b1 % 16, b2 / 64);
  }

  /** One group of three bytes survives encoding and decoding. */
  lemma GroupRoundTrip(b0: byte, b1: byte, b2: byte)
    ensures var e := EncodeGroup(b0, b1, b2);
      DecodeGroup(ValueOf(e[0]), ValueOf(e[1]), ValueOf(e[2]), ValueOf(e[3])) == [b0, b1, b2]
  {
    var v0: sextet, v1: sextet := b0 / 4, (b0 % 4) * 16 + b1 / 16;
    var v2: sextet, v3: sextet := (b1 % 16) * 4 + b2 / 64, b2 % 64;
    var e := EncodeGroup(b0, b1, b2);
    assert e == [CharOf(v0), CharOf(v1), CharOf(v2), CharOf(v3)];
    ValueOfCharOf(v0);
    ValueOfCharOf(v1);
    ValueOfCharOf(v2);
    ValueOfCharOf(v3);
    GroupBits(b0, b1, b2);
    assert DecodeGroup(v0, v1, v2, v3) == [b0, b1, b2];
  }


  /** Decoding the alphabet characters of an encoding gives the bytes back. */
  lemma {:induction false} DecodeEncodeDigits(b: seq<byte>)
    ensures DecodeDigits(EncodeDigits(b)) == b
    decreases |b|
  {
    var d := EncodeDigits(b);
    if |b| >= 3 {
      var g := EncodeGroup(b[0], b[1], b[2]);
      var rest := EncodeDigits(b[3..]);
      assert d == g + rest;
      assert d[..4] == g && d[4..] == rest;
      DecodeEncodeDigits(b[3..]);
      GroupRoundTrip(b[0], b[1], b[2]);
      assert DecodeDigits(d) == DecodeGroup(ValueOf(g[0]), ValueOf(g[1]), ValueOf(g[2]), ValueOf(g[3])) + DecodeDigits(rest);
      assert b == [b[0], b[1], b[2]] + b[3..];
    } else if |b| == 2 {
      PairRoundTrip(b[0], b[1]);
      assert b == [b[0], b[1]];
    } else if |b| == 1 {
      SingleRoundTrip(b[0]);
      assert b == [b[0]];
    }
  }

  /** Two trailing bytes become three characters and come back. */
  lemma PairRoundTrip(b0: byte, b1: byte)
    ensures DecodeDigits(EncodeDigits([b0, b1])) == [b0, b1]
  {
    var e := EncodeGroup(b0, b1, 0);
    assert EncodeDigits([b0, b1]) == e[..3];
    GroupRoundTrip(b0, b1, 0);
    assert DecodeGroup(ValueOf(e[0]), ValueOf(e[1]), ValueOf(e[2]), ValueOf(e[3]))[..2] == [b0, b1];
  }

  /** One trailing byte becomes two characters and comes back. */
  lemma SingleRoundTrip(b0: byte)
    ensures DecodeDigits(EncodeDigits([b0])) == [b0]
  {
    var e := EncodeGroup(b0, 0, 0);
    assert EncodeDigits([b0]) == e[..2];
    GroupRoundTrip(b0, 0, 0);
    assert DecodeGroup(ValueOf(e[0]), ValueOf(e[1]), ValueOf(e[2]), ValueOf(e[3]))[..1] == [b0];
  }

  /** Round trip: the canonical encoding of any non-empty byte sequence
      passes the acceptance test and decodes to exactly those bytes. */
  lemma DecodeEncode(b: seq<byte>)
    requires |b| > 0
    ensures IsWellFormed(Encode(b))
    ensures Decode(Encode(b)) == b
  {
    var d := EncodeDigits(b);
    WellFormedJoin(d, Padding(|b|));
    assert Encode(b)[..|d|] == d;
    DecodeEncodeDigits(b);
  }

  /** Leniency: a single alphabet character after the last full group adds
      no byte, so Node drops it without an error. */
  lemma {:induction false} LoneTailIgnored(d: string, c: char)
    requires AllBase64(d) && |d| % 4 == 0 && IsBase64Char(c)
    ensures DecodeDigits(d + [c]) == DecodeDigits(d)
    decreases |d|
  {
    if |d| == 0 {
      assert d + [c] == [c];
    } else {
      assert (d + [c])[4..] == d[4..] + [c];
      assert (d + [c])[..4] == d[..4];
      LoneTailIgnored(d[4..], c);
    }
  }

  /** The groups the test vectors of RFC 4648 are made of. */
  lemma Rfc4648Groups()
    ensures EncodeGroup(0x66, 0, 0) == "ZgAA"
    ensures EncodeGroup(0x66, 0x6F, 0) == "Zm8A"
    ensures EncodeGroup(0x66, 0x6F, 0x6F) == "Zm9v"
    ensures EncodeGroup(0x62, 0, 0) == "YgAA"
    ensures EncodeGroup(0x62, 0x61, 0) == "YmEA"
    ensures EncodeGroup(0x62, 0x61, 0x72) == "YmFy"
  {
  }

  /** The test vectors of section 10 of RFC 4648. */
  lemma Rfc4648Vectors()
    ensures Encode([]) == ""
    ensures Encode([0x66]) == "Zg=="
    ensures Encode([0x66, 0x6F]) == "Zm8="
    ensures Encode([0x66, 0x6F, 0x6F]) == "Zm9v"
    ensures Encode([0x66, 0x6F, 0x6F, 0x62]) == "Zm9vYg=="
    ensures Encode([0x66, 0x6F, 0x6F, 0x62, 0x61]) == "Zm9vYmE="
    ensures Encode([0x66, 0x6F, 0x6F, 0x62, 0x61, 0x72]) == "Zm9vYmFy"
  {
    Rfc4648Groups();
    var foob: seq<byte> := [0x66, 0x6F, 0x6F, 0x62];
    var fooba: seq<byte> := [0x66, 0x6F, 0x6F, 0x62, 0x61];
    var foobar: seq<byte> := [0x66, 0x6F, 0x6F, 0x62, 0x61, 0x72];
    assert foob[3..] == [0x62];
    assert fooba[3..] == [0x62, 0x61];
    assert foobar[3..] == [0x62, 0x61, 0x72];
    assert foobar[3..][3..] == [];
  }


  /** The eight-byte PNG file signature and its encoding. */
  lemma PngSignatureEncoding()
    ensures Encode([0x89, 0x50, 0x4E, 0x47, 0x0D, 0x0A, 0x1A, 0x0A]) == "iVBORw0KGgo="
  {
    var b: seq<byte> := [0x89, 0x50, 0x4E, 0x47, 0x0D, 0x0A, 0x1A, 0x0A];
    assert EncodeGroup(0x89, 0x50, 0x4E) == "iVBO";
    assert EncodeGroup(0x47, 0x0D, 0x0A) == "Rw0K";
    assert EncodeGroup(0x1A, 0x0A, 0) == "GgoA";
    assert b[3..][3..] == [0x1A, 0x0A];
  }
}
