/** String helpers with the semantics of the JavaScript operations the
    gateway uses: the `\s` character class, `replace(/\/+$/, "")`,
    `String.prototype.split` with a one-character separator and
    `Array.prototype.join`. Strings are sequences of Unicode scalar values. */
module Text {

  /** ECMAScript LineTerminator: the characters `.` in a regular expression
      does not match. */
  predicate IsLineTerminator(c: char) {
    c == '\n' || c == '\r' || c == '\U{2028}' || c == '\U{2029}'
  }

  /** ECMAScript `\s`: WhiteSpace (tab, vertical tab, form feed, space,
      no-break space, byte order mark, category Zs) or LineTerminator. */
  predicate IsWhitespace(c: char) {
    c == '\t' || c == '\U{B}' || c == '\U{C}' || c == ' ' || c == '\U{A0}'
    || c == '\U{1680}' || ('\U{2000}' <= c <= '\U{200A}') || c == '\U{202F}'
    || c == '\U{205F}' || c == '\U{3000}' || c == '\U{FEFF}'
    || IsLineTerminator(c)
  }

  predicate HasLineTerminator(s: string) {
    exists i :: 0 <= i < |s| && IsLineTerminator(s[i])
  }

  /** `s.replace(/\s/g, "")`: the characters of `s` that are not
      whitespace, in their original order. */
  function RemoveWhitespace(s: string): (r: string)
    ensures |r| <= |s|
    ensures forall i :: 0 <= i < |r| ==> !IsWhitespace(r[i])
  {
    if s == [] then []
    else (if IsWhitespace(s[0]) then [] else [s[0]]) + RemoveWhitespace(s[1..])
  }

  lemma {:induction false} RemoveWhitespaceAppend(a: string, b: string)
    ensures RemoveWhitespace(a + b) == RemoveWhitespace(a) + RemoveWhitespace(b)
  {
    if a != [] {
      assert (a + b)[1..] == a[1..] + b;
      assert (a + b)[0] == a[0];
      RemoveWhitespaceAppend(a[1..], b);
      var head := if IsWhitespace(a[0]) then [] else [a[0]];
      assert RemoveWhitespace(a + b) == head + RemoveWhitespace(a[1..] + b);
      assert RemoveWhitespace(a) == head + RemoveWhitespace(a[1..]);
    } else {
      assert a + b == b;
    }
  }

  /** Removing whitespace keeps exactly the characters that are not
      whitespace: each one that occurs in `s` occurs in the result, and the
      result holds nothing that was not in `s`. */
  lemma {:induction false} RemoveWhitespaceKeeps(s: string, c: char)
    ensures c in RemoveWhitespace(s) <==> (c in s && !IsWhitespace(c))
  {
    if s != [] {
      RemoveWhitespaceKeeps(s[1..], c);
      assert s == [s[0]] + s[1..];
    }
  }

  /** A string with no whitespace in it is left as it is. */
  lemma {:induction false} RemoveWhitespaceNoop(s: string)
    requires forall i :: 0 <= i < |s| ==> !IsWhitespace(s[i])
    ensures RemoveWhitespace(s) == s
  {
    if s != [] {
      RemoveWhitespaceNoop(s[1..]);
    }
  }

  /** `s.replace(/\/+$/, "")`: `s` without its maximal run of trailing
      slashes. */
  function StripTrailingSlashes(s: string): (r: string)
    ensures |r| <= |s| && r == s[..|r|]
    ensures r == [] || r[|r| - 1] != '/'
    ensures forall i :: |r| <= i < |s| ==> s[i] == '/'
    decreases |s|
  {
    if s != [] && s[|s| - 1] == '/' then StripTrailingSlashes(s[..|s| - 1]) else s
  }

  /** The three facts StripTrailingSlashes ensures determine its result: any
      prefix of `s` that does not end in `/` and leaves only slashes behind
      is that result. */
  lemma StripTrailingSlashesUnique(s: string, p: string)
    requires |p| <= |s| && p == s[..|p|]
    requires p == [] || p[|p| - 1] != '/'
    requires forall i :: |p| <= i < |s| ==> s[i] == '/'
    ensures StripTrailingSlashes(s) == p
  {
  }

  /** A string made only of slashes strips to the empty string. */
  lemma AllSlashesStripToEmpty(s: string)
    requires forall i :: 0 <= i < |s| ==> s[i] == '/'
    ensures StripTrailingSlashes(s) == []
  {
  }

  /** `s.split(sep)`: the maximal pieces of `s` between separators; the
      empty string splits into one empty piece. */
  function Split(s: string, sep: char): (parts: seq<string>)
    ensures |parts| >= 1
    ensures forall i :: 0 <= i < |parts| ==> sep !in parts[i]
    decreases |s|
  {
    if s == [] then [[]]
    else
      var rest := Split(s[1..], sep);
      if s[0] == sep then [[]] + rest else [[s[0]] + rest[0]] + rest[1..]
  }

  /** `parts.join(sep)`. */
  function Join(parts: seq<string>, sep: char): (r: string)
    ensures |parts| >= 1 ==> parts[0] <= r
    ensures |parts| >= 2 ==> sep in r
    decreases |parts|
  {
    if |parts| == 0 then []
    else if |parts| == 1 then parts[0]
    else parts[0] + [sep] + Join(parts[1..], sep)
  }

  /** Joining the pieces of a split gives the string back. */
  lemma {:induction false} JoinSplit(s: string, sep: char)
    ensures Join(Split(s, sep), sep) == s
    decreases |s|
  {
    if s != [] {
      var rest := Split(s[1..], sep);
      JoinSplit(s[1..], sep);
      if s[0] == sep {
        assert Split(s, sep) == [[]] + rest;
      } else {
        var parts := Split(s, sep);
        assert parts == [[s[0]] + rest[0]] + rest[1..];
        if |rest| == 1 {
          assert Join(parts, sep) == [s[0]] + rest[0];
        } else {
          assert parts[1..] == rest[1..];
          assert Join(rest, sep) == rest[0] + [sep] + Join(rest[1..], sep);
        }
      }
    }
  }

  /** Splitting the join of separator-free pieces gives the pieces back. */
  lemma {:induction false} SplitJoin(parts: seq<string>, sep: char)
    requires |parts| >= 1
    requires forall i :: 0 <= i < |parts| ==> sep !in parts[i]
    ensures Split(Join(parts, sep), sep) == parts
    decreases |parts|
  {
    if |parts| == 1 {
      SplitFree(parts[0], sep);
    } else {
      SplitJoin(parts[1..], sep);
      SplitAround(parts[0], Join(parts[1..], sep), sep);
      SplitFree(parts[0], sep);
      assert parts == [parts[0]] + parts[1..];
    }
  }

  /** A string without the separator is a single piece. */
  lemma {:induction false} SplitFree(s: string, sep: char)
    requires sep !in s
    ensures Split(s, sep) == [s]
    decreases |s|
  {
    if s != [] {
      SplitFree(s[1..], sep);
      assert [s[0]] + s[1..] == s;
    }
  }

  /** One step of Split: a leading separator starts a new piece, any other
      character extends the first piece. */
  lemma SplitCons(c: char, t: string, sep: char)
    ensures Split([c] + t, sep)
      == if c == sep then [[]] + Split(t, sep) else [[c] + Split(t, sep)[0]] + Split(t, sep)[1..]
  {
    assert ([c] + t)[0] == c;
    assert ([c] + t)[1..] == t;
  }

  /** Appending to a list of pieces leaves its head and extends its tail. */
  lemma TailAppend(x: string, r: seq<string>, q: seq<string>)
    requires |r| >= 1
    ensures [x] + (r + q)[1..] == ([x] + r[1..]) + q
    ensures (r + q)[0] == r[0]
  {
    assert (r + q)[1..] == r[1..] + q;
  }

  /** Splitting around one separator splits each side on its own. */
  lemma {:induction false} SplitAround(a: string, b: string, sep: char)
    ensures Split(a + [sep] + b, sep) == Split(a, sep) + Split(b, sep)
    decreases |a|
  {
    if a == [] {
      assert a + [sep] + b == [sep] + b;
      SplitCons(sep, b, sep);
    } else {
      var t := a[1..] + [sep] + b;
      assert a + [sep] + b == [a[0]] + t;
      assert a == [a[0]] + a[1..];
      SplitAround(a[1..], b, sep);
      SplitCons(a[0], t, sep);
      SplitCons(a[0], a[1..], sep);
      var ra, rb := Split(a[1..], sep), Split(b, sep);
      if a[0] != sep {
        TailAppend([a[0]] + ra[0], ra, rb);
      }
    }
  }



}
