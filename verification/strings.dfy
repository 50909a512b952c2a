/**
 Text primitives shared by the inverted index and the score tools: the
 whitespace tokenizer behind Python's `str.split()`, splitting and joining at
 one separator character, `rstrip("\n")`, and Python's ordering of strings.
 */
module Strings {
  import opened Wrappers

  /** Python's `str.isspace` characters, the separators of `str.split()`. */
  predicate IsSpace(c: char)
  {
    || ('\t' <= c <= '\r')
    || ('\U{1C}' <= c <= '\U{1F}')
    || c == ' '
    || c == '\U{85}'
    || c == '\U{A0}'
    || c == '\U{1680}'
    || ('\U{2000}' <= c <= '\U{200A}')
    || c == '\U{2028}'
    || c == '\U{2029}'
    || c == '\U{202F}'
    || c == '\U{205F}'
    || c == '\U{3000}'
  }

  /** A term as `split()` produces it: non-empty, without whitespace. */
  predicate IsToken(w: string)
  {
    |w| > 0 && forall i :: 0 <= i < |w| ==> !IsSpace(w[i])
  }

  /** Drops the leading whitespace of `s`. */
  function DropSpaces(s: string): (r: string)
    ensures |r| <= |s|
    ensures r == [] || !IsSpace(r[0])
    ensures forall i :: 0 <= i < |s| - |r| ==> IsSpace(s[i])
  {
    if |s| > 0 && IsSpace(s[0]) then DropSpaces(s[1..]) else s
  }

  /** The length of the longest whitespace-free prefix of `s`. */
  function WordLength(s: string): (n: nat)
    ensures n <= |s|
    ensures forall i :: 0 <= i < n ==> !IsSpace(s[i])
    ensures n == |s| || IsSpace(s[n])
  {
    if |s| == 0 || IsSpace(s[0]) then 0 else 1 + WordLength(s[1..])
  }

  /** Python's `s.split()`: the maximal runs of non-whitespace, in order. */
  function Split(s: string): (r: seq<string>)
    ensures forall i :: 0 <= i < |r| ==> IsToken(r[i])
    decreases |s|
  {
    var t := DropSpaces(s);
    if t == [] then []
    else
      var n := WordLength(t);
      [t[..n]] + Split(t[n..])
  }

  /** Python's `" ".join(words)`. */
  function JoinSpaces(words: seq<string>): string
  {
    if |words| == 0 then ""
    else if |words| == 1 then words[0]
    else words[0] + " " + JoinSpaces(words[1..])
  }

  /** A word followed by whitespace (or nothing) is read back as that word. */
  lemma {:induction false} WordLengthOfToken(w: string, tail: string)
    requires IsToken(w)
    requires tail == [] || IsSpace(tail[0])
    ensures WordLength(w + tail) == |w|
  {
    var s := w + tail;
    assert forall i :: 0 <= i < |w| ==> s[i] == w[i];
    assert |w| < |s| ==> s[|w|] == tail[0];
  }

  /** A token followed by whitespace (or nothing) is the first token. */
  lemma {:induction false} SplitOfTokenThen(w: string, tail: string)
    requires IsToken(w)
    requires tail == [] || IsSpace(tail[0])
    ensures Split(w + tail) == [w] + Split(tail)
  {
    var s := w + tail;
    assert DropSpaces(s) == s;
    WordLengthOfToken(w, tail);
    assert s[..|w|] == w;
    assert s[|w|..] == tail;
  }

  /** Leading whitespace never changes the tokens. */
  lemma {:induction false} SplitSkipsLeadingSpace(c: char, s: string)
    requires IsSpace(c)
    ensures Split([c] + s) == Split(s)
  {
    assert ([c] + s)[1..] == s;
  }

  /** `split()` undoes a single-space join of tokens. */
  lemma {:induction false} SplitJoinSpaces(words: seq<string>)
    requires forall i :: 0 <= i < |words| ==> IsToken(words[i])
    ensures Split(JoinSpaces(words)) == words
    decreases |words|
  {
    if |words| == 0 {
    } else if |words| == 1 {
      SplitOfTokenThen(words[0], []);
      assert words[0] + [] == words[0];
    } else {
      var w := words[0];
      var rest := JoinSpaces(words[1..]);
      assert w + " " + rest == w + ([' '] + rest);
      SplitOfTokenThen(w, [' '] + rest);
      SplitSkipsLeadingSpace(' ', rest);
      SplitJoinSpaces(words[1..]);
      assert [w] + words[1..] == words;
    }
  }

  /** Splitting, re-joining with single spaces and splitting again changes nothing. */
  lemma SplitIsStable(s: string)
    ensures Split(JoinSpaces(Split(s))) == Split(s)
  {
    SplitJoinSpaces(Split(s));
  }

  /** Trailing whitespace never changes the tokens. */
  lemma {:induction false} SplitIgnoresTrailingSpace(s: string, c: char)
    requires IsSpace(c)
    ensures Split(s + [c]) == Split(s)
    decreases |s|
  {
    if |s| == 0 {
      assert s + [c] == [c];
      assert DropSpaces([c]) == [];
    } else if IsSpace(s[0]) {
      SplitIgnoresTrailingSpace(s[1..], c);
      SplitSkipsLeadingSpace(s[0], s[1..] + [c]);
      SplitSkipsLeadingSpace(s[0], s[1..]);
      assert [s[0]] + (s[1..] + [c]) == s + [c];
      assert [s[0]] + s[1..] == s;
    } else {
      var n := WordLength(s);
      var w, tail := s[..n], s[n..];
      assert s == w + tail;
      assert s + [c] == w + (tail + [c]);
      SplitOfTokenThen(w, tail);
      SplitOfTokenThen(w, tail + [c]);
      SplitIgnoresTrailingSpace(tail, c);
    }
  }

  /** Python's `s.rstrip("\n")`: every trailing newline removed. */
  function RStripNewlines(s: string): (r: string)
    ensures |r| <= |s| && r == s[..|r|]
    ensures r == [] || r[|r| - 1] != '\n'
    ensures forall i :: |r| <= i < |s| ==> s[i] == '\n'
  {
    if |s| > 0 && s[|s| - 1] == '\n' then RStripNewlines(s[..|s| - 1]) else s
  }

  /** Stripping trailing newlines before `split()` yields the same tokens as `split()` alone. */
  lemma {:induction false} SplitAfterRStrip(s: string)
    ensures Split(RStripNewlines(s)) == Split(s)
    decreases |s|
  {
    if |s| > 0 && s[|s| - 1] == '\n' {
      var p := s[..|s| - 1];
      SplitAfterRStrip(p);
      SplitIgnoresTrailingSpace(p, '\n');
      assert p + ['\n'] == s;
    }
  }

  /** The index of the first occurrence of `c` in `s`, as `s.find(c)` reports it. */
  function FindChar(s: string, c: char): (r: Option<nat>)
    ensures r.None? <==> c !in s
    ensures r.Some? ==> r.value < |s| && s[r.value] == c && c !in s[..r.value]
  {
    if |s| == 0 then None
    else if s[0] == c then Some(0)
    else
      match FindChar(s[1..], c)
      case None => None
      case Some(i) =>
        assert s[..i + 1] == [s[0]] + s[1..][..i];
        Some(i + 1)
  }

  /** Python's `s.split(sep)` for a one-character separator; never empty. */
  function SplitOn(s: string, sep: char): (r: seq<string>)
    ensures |r| > 0
    decreases |s|
  {
    match FindChar(s, sep)
    case None => [s]
    case Some(i) => [s[..i]] + SplitOn(s[i + 1..], sep)
  }

  /** Python's `sep.join(parts)` for a one-character separator. */
  function JoinWith(sep: char, parts: seq<string>): string
  {
    if |parts| == 0 then ""
    else if |parts| == 1 then parts[0]
    else parts[0] + [sep] + JoinWith(sep, parts[1..])
  }

  /** `split(sep)` undoes `sep.join` when no part contains the separator. */
  lemma {:induction false} SplitOnJoinWith(sep: char, parts: seq<string>)
    requires |parts| > 0
    requires forall i :: 0 <= i < |parts| ==> sep !in parts[i]
    ensures SplitOn(JoinWith(sep, parts), sep) == parts
    decreases |parts|
  {
    if |parts| > 1 {
      var p := parts[0];
      var rest := JoinWith(sep, parts[1..]);
      var s := p + [sep] + rest;
      assert s[|p|] == sep && s[..|p|] == p;
      assert FindChar(s, sep) == Some(|p|);
      assert s[|p| + 1..] == rest;
      SplitOnJoinWith(sep, parts[1..]);
      assert [p] + parts[1..] == parts;
    }
  }

  /** Python's `a < b` on strings: code point by code point, a proper prefix first. */
  predicate StrLess(a: string, b: string)
    decreases |a|
  {
    if |a| == 0 then |b| > 0
    else if |b| == 0 then false
    else if a[0] != b[0] then a[0] < b[0]
    else StrLess(a[1..], b[1..])
  }

  lemma {:induction false} StrLessIrreflexive(a: string)
    ensures !StrLess(a, a)
    decreases |a|
  {
    if |a| > 0 {
      StrLessIrreflexive(a[1..]);
    }
  }

  lemma {:induction false} StrLessTransitive(a: string, b: string, c: string)
    requires StrLess(a, b) && StrLess(b, c)
    ensures StrLess(a, c)
    decreases |a|
  {
    if |a| > 0 && a[0] == b[0] && b[0] == c[0] {
      StrLessTransitive(a[1..], b[1..], c[1..]);
    }
  }

  lemma {:induction false} StrLessTotal(a: string, b: string)
    requires a != b
    ensures StrLess(a, b) || StrLess(b, a)
    decreases |a|
  {
    if |a| > 0 && |b| > 0 && a[0] == b[0] {
      assert a == [a[0]] + a[1..] && b == [b[0]] + b[1..];
      StrLessTotal(a[1..], b[1..]);
    }
  }

}
