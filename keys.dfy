/** The key generator: `randToken` (index.js:57-61) and the key template of
    the upload handler (index.js:98). The random bytes `crypto.randomBytes`
    would draw are parameters. */
module Keys {
  import opened Text
  import opened Base64

  /** The characters of "ABCDEFGHIJKLMNOPQRSTUVWXYZ0123456789". */
  predicate IsTokenChar(c: char) {
    'A' <= c <= 'Z' || '0' <= c <= '9'
  }

  /** `alphabet[v]` for the 36-character alphabet of index.js:58. */
  function TokenChar(v: nat): (c: char)
    requires v < 36
    ensures IsTokenChar(c)
  {
    if v < 26 then ('A' as int + v) as char else ('0' as int + (v - 26)) as char
  }

  /** TokenChar is the alphabet string of index.js:58, indexed. */
  lemma TokenAlphabet()
    ensures forall v :: 0 <= v < 36 ==> TokenChar(v) == "ABCDEFGHIJKLMNOPQRSTUVWXYZ0123456789"[v]
  {
  }

  /** `randToken(bytes.length)` when `crypto.randomBytes` yields `bytes`:
      each byte picks `alphabet[b % 36]`. */
  function RandToken(bytes: seq<byte>): (t: string)
    ensures |t| == |bytes|
    ensures forall i :: 0 <= i < |t| ==> IsTokenChar(t[i])
  {
    seq(|bytes|, i requires 0 <= i < |bytes| => TokenChar(bytes[i] % 36))
  }

  /** Every character of the alphabet can be drawn: the byte equal to its
      index yields it. */
  lemma RandTokenOnto(c: char)
    requires IsTokenChar(c)
    ensures exists b: byte :: RandToken([b]) == [c]
  {
    var v := if 'A' <= c <= 'Z' then c as int - 'A' as int else c as int - '0' as int + 26;
    assert RandToken([v]) == [TokenChar(v)];
  }

  /** Distinct alphabet indices give distinct characters. */
  lemma TokenCharInjective(a: nat, b: nat)
    requires a < 36 && b < 36 && TokenChar(a) == TokenChar(b)
    ensures a == b
  {
  }

  /** A single byte draws the character of index `k` exactly when it is
      congruent to `k` modulo 36. */
  lemma PicksIndex(b: byte, k: nat)
    requires k < 36
    ensures RandToken([b]) == [TokenChar(k)] <==> b % 36 == k
  {
    assert RandToken([b]) == [TokenChar(b % 36)];
    if RandToken([b]) == [TokenChar(k)] {
      assert TokenChar(b % 36) == TokenChar(k);
      TokenCharInjective(b % 36, k);
    }
  }

  /** The number of byte values below `n` whose draw is the character of
      alphabet index `k`. */
  function Preimages(k: nat, n: nat): nat
    requires k < 36 && n <= 256
  {
    if n == 0 then 0
    else Preimages(k, n - 1) + (if RandToken([n - 1]) == [TokenChar(k)] then 1 else 0)
  }

  lemma {:induction false} PreimagesCount(k: nat, n: nat)
    requires k < 36 && n <= 256
    ensures Preimages(k, n) == n / 36 + (if n % 36 > k then 1 else 0)
  {
    if n > 0 {
      PreimagesCount(k, n - 1);
      PicksIndex(n - 1, k);
    }
  }

  /** The modulo bias of `alphabet[b % 36]`: as 256 = 7 * 36 + 4, each of the
      characters "A" to "D" is drawn by 8 of the 256 byte values and each of
      the other 32 by 7. */
  lemma TokenBias(k: nat)
    requires k < 36
    ensures Preimages(k, 256) == if k < 4 then 8 else 7
  {
    PreimagesCount(k, 256);
  }

  /** The key template of index.js:98: the folder without its trailing
      slashes and a `/`, when the folder is non-empty (truthy), then the two
      tokens and the extension. */
  function MakeKey(folder: string, token8: string, token6: string, ext: string): (key: string)
    ensures var name := ObjectName(token8, token6, ext);
      |key| >= |name| && key[|key| - |name|..] == name
    ensures folder == "" <==> |key| == |ObjectName(token8, token6, ext)|
  {
    (if folder != "" then StripTrailingSlashes(folder) + "/" else "") + ObjectName(token8, token6, ext)
  }

  /** `<token8>-<token6>.<ext>`, the last segment of every key. */
  function ObjectName(token8: string, token6: string, ext: string): string {
    token8 + "-" + token6 + "." + ext
  }

  /** The key built from freshly drawn bytes, as the handler builds it. */
  function GenerateKey(folder: string, rand8: seq<byte>, rand6: seq<byte>, ext: string): (key: string)
    requires |rand8| == 8 && |rand6| == 6
    ensures |key| >= 16 + |ext| && IsObjectName(key[|key| - 16 - |ext|..], ext)
  {
    MakeKey(folder, RandToken(rand8), RandToken(rand6), ext)
  }

  /** The pattern `[A-Z0-9]{8}-[A-Z0-9]{6}.<ext>`. */
  predicate IsObjectName(name: string, ext: string) {
    |name| == 16 + |ext|
    && (forall i :: 0 <= i < 8 ==> IsTokenChar(name[i]))
    && name[8] == '-'
    && (forall i :: 9 <= i < 15 ==> IsTokenChar(name[i]))
    && name[15] == '.'
    && name[16..] == ext
  }

  /** The layout of a generated key: split on `/`, it is the segments of the
      stripped folder (none for an empty folder) followed by one segment of
      the form `[A-Z0-9]{8}-[A-Z0-9]{6}.<ext>`. */
  lemma GeneratedKeyLayout(folder: string, rand8: seq<byte>, rand6: seq<byte>, ext: string)
    requires |rand8| == 8 && |rand6| == 6 && '/' !in ext
    ensures var parts := Split(GenerateKey(folder, rand8, rand6, ext), '/');
      parts[..|parts| - 1] == (if folder == "" then [] else Split(StripTrailingSlashes(folder), '/'))
      && IsObjectName(parts[|parts| - 1], ext)
  {
    var t8, t6 := RandToken(rand8), RandToken(rand6);
    var name := ObjectName(t8, t6, ext);
    assert name == t8 + ("-" + t6 + "." + ext);
    assert name[8..] == "-" + t6 + "." + ext;
    assert name[9..] == t6 + ("." + ext);
    assert name[16..] == ext;
    assert forall i :: 0 <= i < 8 ==> name[i] == t8[i];
    assert forall i :: 9 <= i < 15 ==> name[i] == t6[i - 9];
    SplitFree(name, '/');
    var key := GenerateKey(folder, rand8, rand6, ext);
    if folder != "" {
      var dir := StripTrailingSlashes(folder);
      assert key == dir + ['/'] + name;
      SplitAround(dir, name, '/');
    } else {
      assert key == name;
    }
  }

  /** A folder made only of slashes strips to nothing but is still truthy,
      so the key starts with `/`: an empty first segment. */
  lemma SlashOnlyFolderKey(folder: string, token8: string, token6: string, ext: string)
    requires folder != [] && forall i :: 0 <= i < |folder| ==> folder[i] == '/'
    ensures MakeKey(folder, token8, token6, ext)[0] == '/'
    ensures MakeKey(folder, token8, token6, ext) == "/" + ObjectName(token8, token6, ext)
  {
    AllSlashesStripToEmpty(folder);
  }

  /** Trailing slashes on the folder do not change the key. */
  lemma FolderTrailingSlashesIgnored(folder: string, slashes: string, token8: string, token6: string, ext: string)
    requires folder != [] && forall i :: 0 <= i < |slashes| ==> slashes[i] == '/'
    ensures MakeKey(folder + slashes, token8, token6, ext) == MakeKey(folder, token8, token6, ext)
  {
    var s := folder + slashes;
    var p := StripTrailingSlashes(folder);
    assert s[..|folder|] == folder;
    assert s[..|p|] == p;
    StripTrailingSlashesUnique(s, p);
  }
}
