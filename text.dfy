/**
  The three pieces of Python's text handling the tool relies on:
  `str.split(sep)` with an explicit one-character separator, `str.strip()`
  with no argument, and iterating over a file opened in text mode, which
  yields its lines one at a time, each keeping its terminating newline.
 */
module PyText {

  /** The characters for which Python's `str.isspace()` holds; these are the
      ones `str.strip()` removes. */
  predicate IsSpace(c: char) {
    ('\t' <= c <= '\r') || ('\U{1C}' <= c <= '\U{1F}') || c == ' '
    || c == '\U{85}' || c == '\U{A0}' || c == '\U{1680}'
    || ('\U{2000}' <= c <= '\U{200A}') || c == '\U{2028}' || c == '\U{2029}'
    || c == '\U{202F}' || c == '\U{205F}' || c == '\U{3000}'
  }

  predicate AllSpace(s: string) {
    forall i :: 0 <= i < |s| ==> IsSpace(s[i])
  }

  /** Neither the first nor the last character is whitespace. */
  predicate IsTrimmed(s: string) {
    s == [] || (!IsSpace(s[0]) && !IsSpace(s[|s| - 1]))
  }

  /** `s.lstrip()`. */
  function StripStart(s: string): string {
    if |s| > 0 && IsSpace(s[0]) then StripStart(s[1..]) else s
  }

  /** `s.rstrip()`. */
  function StripEnd(s: string): string {
    if |s| > 0 && IsSpace(s[|s| - 1]) then StripEnd(s[..|s| - 1]) else s
  }

  /** `lstrip` keeps the longest suffix that does not start with whitespace. */
  lemma {:induction false} StripStartSuffix(s: string)
    ensures |StripStart(s)| <= |s| && StripStart(s) == s[|s| - |StripStart(s)|..]
    ensures AllSpace(s[..|s| - |StripStart(s)|])
    ensures StripStart(s) == [] || !IsSpace(StripStart(s)[0])
    decreases |s|
  {
    if |s| > 0 && IsSpace(s[0]) {
      StripStartSuffix(s[1..]);
    }
  }

  /** `rstrip` keeps the longest prefix that does not end with whitespace. */
  lemma {:induction false} StripEndPrefix(s: string)
    ensures |StripEnd(s)| <= |s| && StripEnd(s) == s[..|StripEnd(s)|]
    ensures AllSpace(s[|StripEnd(s)|..])
    ensures StripEnd(s) == [] || !IsSpace(StripEnd(s)[|StripEnd(s)| - 1])
    decreases |s|
  {
    if |s| > 0 && IsSpace(s[|s| - 1]) {
      var t := s[..|s| - 1];
      StripEndPrefix(t);
      var k := |StripEnd(t)|;
      assert s[k..] == t[k..] + [s[|s| - 1]];
    }
  }

  /** `s.strip()`: `s` with its leading and trailing whitespace removed. */
  function Strip(s: string): (r: string)
    ensures IsTrimmed(r)
  {
    StripStartSuffix(s);
    StripEndPrefix(StripStart(s));
    StripEnd(StripStart(s))
  }

  /** What `Strip` removes is whitespace on either side of a slice of `s`. */
  lemma StripSlice(s: string) returns (i: nat)
    ensures i + |Strip(s)| <= |s| && Strip(s) == s[i..i + |Strip(s)|]
    ensures AllSpace(s[..i]) && AllSpace(s[i + |Strip(s)|..])
  {
    var t := StripStart(s);
    StripStartSuffix(s);
    StripEndPrefix(t);
    var r := StripEnd(t);
    i := |s| - |t|;
    assert r == s[i..i + |r|];
    assert s[i + |r|..] == t[|r|..];
  }

  lemma {:induction false} StripStartSpaces(a: string, u: string)
    requires AllSpace(a)
    requires u == [] || !IsSpace(u[0])
    ensures StripStart(a + u) == u
    decreases |a|
  {
    if a == [] {
      assert a + u == u;
    } else {
      assert (a + u)[1..] == a[1..] + u;
      StripStartSpaces(a[1..], u);
    }
  }

  lemma {:induction false} StripEndSpaces(u: string, b: string)
    requires AllSpace(b)
    requires u == [] || !IsSpace(u[|u| - 1])
    ensures StripEnd(u + b) == u
    decreases |b|
  {
    if b == [] {
      assert u + b == u;
    } else {
      assert (u + b)[..|u + b| - 1] == u + b[..|b| - 1];
      StripEndSpaces(u, b[..|b| - 1]);
    }
  }

  /** Stripping recovers a trimmed text from any whitespace around it. */
  lemma StripSurrounded(a: string, t: string, b: string)
    requires AllSpace(a) && AllSpace(b) && IsTrimmed(t)
    ensures Strip(a + t + b) == t
  {
    if t == [] {
      assert a + t + b == (a + b) + [];
      StripStartSpaces(a + b, []);
    } else {
      assert a + t + b == a + (t + b);
      StripStartSpaces(a, t + b);
      StripEndSpaces(t, b);
    }
  }

  /** A whitespace character that occurs in `s` at most as its last character
      does not survive stripping. */
  lemma StripInterior(s: string, ch: char)
    requires IsSpace(ch)
    requires forall i :: 0 <= i < |s| - 1 ==> s[i] != ch
    ensures ch !in Strip(s)
  {
    var r := Strip(s);
    var i := StripSlice(s);
    forall j | 0 <= j < |r| ensures r[j] != ch {
      if j < |r| - 1 {
        assert r[j] == s[i + j];
      }
    }
  }

  /** Stripping a second time changes nothing. */
  lemma StripIdempotent(s: string)
    ensures Strip(Strip(s)) == Strip(s)
  {
    var t := Strip(s);
    assert [] + t + [] == t;
    StripSurrounded([], t, []);
  }

  /** Number of occurrences of `c` in `s`. */
  function Count(s: string, c: char): nat {
    if s == [] then 0 else (if s[0] == c then 1 else 0) + Count(s[1..], c)
  }

  lemma {:induction false} CountZero(s: string, c: char)
    ensures Count(s, c) == 0 <==> c !in s
  {
    if s != [] {
      CountZero(s[1..], c);
      assert s == [s[0]] + s[1..];
    }
  }

  lemma {:induction false} CountAppend(a: string, b: string, c: char)
    ensures Count(a + b, c) == Count(a, c) + Count(b, c)
  {
    if a != [] {
      assert (a + b)[0] == a[0] && (a + b)[1..] == a[1..] + b;
      CountAppend(a[1..], b, c);
    } else {
      assert a + b == b;
    }
  }

  /** `s.split(sep)` for a one-character separator: the pieces between
      consecutive occurrences of `sep`, one more piece than there are
      separators, none of them containing the separator. */
  function Split(s: string, sep: char): (r: seq<string>)
    ensures |r| == Count(s, sep) + 1
    ensures forall k :: 0 <= k < |r| ==> sep !in r[k]
  {
    if s == [] then [[]]
    else
      var rest := Split(s[1..], sep);
      if s[0] == sep then [[]] + rest
      else [[s[0]] + rest[0]] + rest[1..]
  }

  /** `sep.join(parts)`. */
  function Join(parts: seq<string>, sep: char): string {
    if |parts| == 0 then []
    else if |parts| == 1 then parts[0]
    else parts[0] + [sep] + Join(parts[1..], sep)
  }

  /** Joining the pieces of a split with the same separator gives back the text. */
  lemma {:induction false} JoinSplit(s: string, sep: char)
    ensures Join(Split(s, sep), sep) == s
  {
    if s != [] {
      var rest := Split(s[1..], sep);
      JoinSplit(s[1..], sep);
      if s[0] == sep {
        assert Split(s, sep)[1..] == rest;
        assert s == [sep] + s[1..];
      } else if |rest| == 1 {
        assert s == [s[0]] + s[1..];
      } else {
        assert Split(s, sep)[1..] == rest[1..];
        assert Join(rest, sep) == rest[0] + [sep] + Join(rest[1..], sep);
        assert s == [s[0]] + s[1..];
      }
    }
  }

  lemma {:induction false} SplitPrefix(p: string, t: string, sep: char)
    requires sep !in p
    ensures Split(p + t, sep) == [p + Split(t, sep)[0]] + Split(t, sep)[1..]
    decreases |p|
  {
    if p == [] {
      var r := Split(t, sep);
      assert p + t == t && p + r[0] == r[0];
      assert r == [r[0]] + r[1..];
    } else {
      assert (p + t)[0] == p[0] && p[0] != sep;
      assert (p + t)[1..] == p[1..] + t;
      SplitPrefix(p[1..], t, sep);
      var rest := Split(p[1..] + t, sep);
      assert rest[0] == p[1..] + Split(t, sep)[0];
      assert rest[1..] == Split(t, sep)[1..];
      assert [p[0]] + rest[0] == p + Split(t, sep)[0];
    }
  }

  /** A separator-free piece followed by the separator splits off as the
      first piece. */
  lemma SplitAtSeparator(p: string, t: string, sep: char)
    requires sep !in p
    ensures Split(p + [sep] + t, sep) == [p] + Split(t, sep)
  {
    assert p + [sep] + t == p + ([sep] + t);
    SplitPrefix(p, [sep] + t, sep);
    assert ([sep] + t)[0] == sep && ([sep] + t)[1..] == t;
    assert p + [] == p;
  }

  /** Splitting a join of separator-free pieces gives back the pieces. */
  lemma {:induction false} SplitJoin(parts: seq<string>, sep: char)
    requires |parts| >= 1
    requires forall k :: 0 <= k < |parts| ==> sep !in parts[k]
    ensures Split(Join(parts, sep), sep) == parts
  {
    if |parts| == 1 {
      SplitPrefix(parts[0], [], sep);
      assert parts[0] + [] == parts[0];
    } else {
      var tail := Join(parts[1..], sep);
      SplitJoin(parts[1..], sep);
      assert parts[0] + [sep] + tail == parts[0] + ([sep] + tail);
      SplitPrefix(parts[0], [sep] + tail, sep);
      assert ([sep] + tail)[0] == sep && ([sep] + tail)[1..] == tail;
      assert Split([sep] + tail, sep) == [[]] + Split(tail, sep);
      assert parts[0] + [] == parts[0];
      assert parts == [parts[0]] + parts[1..];
    }
  }

  /** A line as text-mode file iteration yields it: not empty, and holding a
      newline at most as its last character. */
  predicate IsLine(l: string) {
    l != [] && '\n' !in l[..|l| - 1]
  }

  predicate EndsWithNewline(l: string) {
    l != [] && l[|l| - 1] == '\n'
  }

  /** Length of the first line of `t`: up to and including the first newline,
      or all of `t` when it has none. */
  function LineEnd(t: string): (k: nat)
    requires t != []
    ensures 0 < k <= |t|
    ensures '\n' !in t[..k - 1]
    ensures k < |t| ==> t[k - 1] == '\n'
  {
    if t[0] == '\n' || |t| == 1 then 1 else 1 + LineEnd(t[1..])
  }

  /** The lines `for line in f` yields for a text file whose (newline-translated)
      content is `t`: every line is non-empty and every line but the last ends
      with a newline. */
  function FileLines(t: string): (lines: seq<string>)
    ensures forall i :: 0 <= i < |lines| ==> IsLine(lines[i])
    ensures forall i :: 0 <= i < |lines| - 1 ==> EndsWithNewline(lines[i])
    decreases |t|
  {
    if t == [] then []
    else
      var k := LineEnd(t);
      [t[..k]] + FileLines(t[k..])
  }

  function Concat(lines: seq<string>): string {
    if lines == [] then [] else lines[0] + Concat(lines[1..])
  }

  /** Iterating over a file loses nothing: its lines put together are the file. */
  lemma {:induction false} ConcatFileLines(t: string)
    ensures Concat(FileLines(t)) == t
    decreases |t|
  {
    if t != [] {
      var k := LineEnd(t);
      ConcatFileLines(t[k..]);
      assert FileLines(t)[1..] == FileLines(t[k..]);
      assert t == t[..k] + t[k..];
    }
  }

  lemma {:induction false} LineEndOf(l: string, rest: string)
    requires IsLine(l) && EndsWithNewline(l)
    ensures LineEnd(l + rest) == |l|
    decreases |l|
  {
    if |l| > 1 {
      assert (l + rest)[0] == l[0] && l[0] != '\n' by {
        assert l[0] == l[..|l| - 1][0];
      }
      assert (l + rest)[1..] == l[1..] + rest;
      assert l[1..][..|l[1..]| - 1] == l[..|l| - 1][1..];
      LineEndOf(l[1..], rest);
    }
  }

  /** Writing newline-terminated lines and reading the file back yields
      exactly those lines. */
  lemma {:induction false} FileLinesConcat(lines: seq<string>)
    requires forall i :: 0 <= i < |lines| ==> IsLine(lines[i]) && EndsWithNewline(lines[i])
    ensures FileLines(Concat(lines)) == lines
  {
    if lines != [] {
      var t := Concat(lines);
      LineEndOf(lines[0], Concat(lines[1..]));
      assert t[..|lines[0]|] == lines[0];
      assert t[|lines[0]|..] == Concat(lines[1..]);
      FileLinesConcat(lines[1..]);
    }
  }
}
