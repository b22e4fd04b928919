/**
 * The two JavaScript string operations the controller relies on:
 * `String.prototype.split` with a one-character separator and
 * `String.prototype.trim`.
 */
module Text {

  /** The ECMAScript WhiteSpace and LineTerminator code points, which `trim` strips. */
  predicate IsJsWhitespace(c: char)
  {
    || c == ' ' || c == '\t' || c == '\n' || c == '\r'
    || c == '\U{000B}' || c == '\U{000C}' || c == '\U{00A0}' || c == '\U{1680}'
    || ('\U{2000}' <= c <= '\U{200A}')
    || c == '\U{2028}' || c == '\U{2029}' || c == '\U{202F}' || c == '\U{205F}'
    || c == '\U{3000}' || c == '\U{FEFF}'
  }

  /** `s.split(d)`: the maximal runs of `s` between occurrences of `d`, always at least one. */
  function Split(s: string, d: char): (parts: seq<string>)
    ensures |parts| >= 1
    ensures d in s <==> |parts| >= 2
    decreases |s|
  {
    if s == [] then [[]]
    else
      var rest := Split(s[1..], d);
      if s[0] == d then [[]] + rest
      else [[s[0]] + rest[0]] + rest[1..]
  }

  /** `parts.join(d)`, the inverse of Split. */
  function Join(parts: seq<string>, d: char): string
    requires |parts| >= 1
    decreases |parts|
  {
    if |parts| == 1 then parts[0] else parts[0] + [d] + Join(parts[1..], d)
  }

  /** Putting a character in front of the first part puts it in front of the joined text. */
  lemma JoinPrepend(c: char, parts: seq<string>, d: char)
    requires |parts| >= 1
    ensures Join([[c] + parts[0]] + parts[1..], d) == [c] + Join(parts, d)
  {
    var q := [[c] + parts[0]] + parts[1..];
    if |parts| > 1 {
      assert q[1..] == parts[1..];
    }
  }

  /** Splitting and joining again gives back the original text. */
  lemma {:induction false} JoinSplit(s: string, d: char)
    ensures Join(Split(s, d), d) == s
    decreases |s|
  {
    if s != [] {
      var rest := Split(s[1..], d);
      JoinSplit(s[1..], d);
      if s[0] == d {
        assert ([[]] + rest)[1..] == rest;
      } else {
        JoinPrepend(s[0], rest, d);
      }
      assert s == [s[0]] + s[1..];
    }
  }

  /** No part produced by Split contains the separator. */
  lemma {:induction false} SplitPartsFree(s: string, d: char)
    ensures forall i | 0 <= i < |Split(s, d)| :: d !in Split(s, d)[i]
    decreases |s|
  {
    if s != [] {
      SplitPartsFree(s[1..], d);
    }
  }

  /** A text without the separator splits into itself alone. */
  lemma {:induction false} SplitFree(p: string, d: char)
    requires d !in p
    ensures Split(p, d) == [p]
    decreases |p|
  {
    if p != [] {
      SplitFree(p[1..], d);
      assert [p[0]] + p[1..] == p;
    }
  }

  /** A separator-free prefix followed by the separator becomes the first part. */
  lemma {:induction false} SplitPrefix(p: string, d: char, t: string)
    requires d !in p
    ensures Split(p + [d] + t, d) == [p] + Split(t, d)
    decreases |p|
  {
    if p == [] {
      assert p + [d] + t == [d] + t;
      assert ([d] + t)[1..] == t;
    } else {
      var s := p + [d] + t;
      assert s[1..] == p[1..] + [d] + t;
      SplitPrefix(p[1..], d, t);
      assert [p[0]] + p[1..] == p;
    }
  }

  /**
   * A separator-free prefix, the separator, then a text that starts with the
   * separator-free `u` followed by the end or another separator: the first two
   * parts are the prefix and `u`.
   */
  lemma SplitFirstTwo(p: string, d: char, t: string, u: string)
    requires d !in p && d !in u
    requires t == u || (|u| < |t| && t[..|u|] == u && t[|u|] == d)
    ensures var parts := Split(p + [d] + t, d); |parts| >= 2 && parts[0] == p && parts[1] == u
  {
    SplitPrefix(p, d, t);
    if t == u {
      SplitFree(u, d);
    } else {
      var rest := t[|u| + 1..];
      assert t == u + [d] + rest;
      SplitPrefix(u, d, rest);
    }
  }

  /** Joining separator-free parts and splitting again gives back the parts. */
  lemma {:induction false} SplitJoin(parts: seq<string>, d: char)
    requires |parts| >= 1
    requires forall i | 0 <= i < |parts| :: d !in parts[i]
    ensures Split(Join(parts, d), d) == parts
    decreases |parts|
  {
    if |parts| == 1 {
      SplitFree(parts[0], d);
    } else {
      SplitJoin(parts[1..], d);
      SplitPrefix(parts[0], d, Join(parts[1..], d));
      assert [parts[0]] + parts[1..] == parts;
    }
  }

  /**
   * For a text holding the separator, part 0 is exactly the text before its first
   * separator and part 1 the text between the first separator and the next one
   * (or the end of the text).
   */
  lemma FirstTwoParts(s: string, d: char)
    requires d in s
    ensures var parts := Split(s, d);
      var i := |parts[0]|;
      var j := i + 1 + |parts[1]|;
      && j <= |s|
      && s[..i] == parts[0] && d !in parts[0]
      && s[i] == d
      && s[i + 1..j] == parts[1] && d !in parts[1]
      && (j == |s| || s[j] == d)
  {
    var parts := Split(s, d);
    JoinSplit(s, d);
    SplitPartsFree(s, d);
    assert d !in parts[0] && d !in parts[1];
    var tail := Join(parts[1..], d);
    assert s == parts[0] + [d] + tail;
    if |parts| == 2 {
      assert tail == parts[1];
    } else {
      assert parts[1..][1..] == parts[2..];
      assert tail == parts[1] + [d] + Join(parts[2..], d);
    }
  }

  /** `s.trimStart()`: drops the leading whitespace. */
  function TrimStart(s: string): (r: string)
    ensures |r| <= |s| && r == s[|s| - |r|..]
    ensures forall i | 0 <= i < |s| - |r| :: IsJsWhitespace(s[i])
    ensures r == [] || !IsJsWhitespace(r[0])
    decreases |s|
  {
    if s != [] && IsJsWhitespace(s[0]) then TrimStart(s[1..]) else s
  }

  /** `s.trimEnd()`: drops the trailing whitespace. */
  function TrimEnd(s: string): (r: string)
    ensures |r| <= |s| && r == s[..|r|]
    ensures forall i | |r| <= i < |s| :: IsJsWhitespace(s[i])
    ensures r == [] || !IsJsWhitespace(r[|r| - 1])
    decreases |s|
  {
    if s != [] && IsJsWhitespace(s[|s| - 1]) then TrimEnd(s[..|s| - 1]) else s
  }

  /**
   * A prefix `r` of a suffix `t` of `s`, with only whitespace cut off on
   * either side, is a slice of `s` with only whitespace around it.
   */
  lemma WhitespaceAround(s: string, t: string, r: string)
    requires |t| <= |s| && t == s[|s| - |t|..]
    requires forall k | 0 <= k < |s| - |t| :: IsJsWhitespace(s[k])
    requires |r| <= |t| && r == t[..|r|]
    requires forall k | |r| <= k < |t| :: IsJsWhitespace(t[k])
    ensures exists i, j | 0 <= i <= j <= |s| ::
      && r == s[i..j]
      && (forall k | 0 <= k < i :: IsJsWhitespace(s[k]))
      && (forall k | j <= k < |s| :: IsJsWhitespace(s[k]))
  {
    var i := |s| - |t|;
    var j := i + |r|;
    assert r == s[i..j];
    forall k | j <= k < |s| ensures IsJsWhitespace(s[k]) {
      assert s[k] == t[k - i];
    }
  }

  /**
   * `s.trim()`: the slice of `s` left once the whitespace at both ends is
   * dropped; it neither starts nor ends with whitespace.
   */
  function Trim(s: string): (r: string)
    ensures |r| <= |s|
    ensures r == [] || (!IsJsWhitespace(r[0]) && !IsJsWhitespace(r[|r| - 1]))
    ensures exists i, j | 0 <= i <= j <= |s| ::
      && r == s[i..j]
      && (forall k | 0 <= k < i :: IsJsWhitespace(s[k]))
      && (forall k | j <= k < |s| :: IsJsWhitespace(s[k]))
  {
    var t := TrimStart(s);
    WhitespaceAround(s, t, TrimEnd(t));
    TrimEnd(t)
  }

  /** A text that neither starts nor ends with whitespace is its own trim. */
  lemma TrimmedAlready(s: string)
    requires s == [] || (!IsJsWhitespace(s[0]) && !IsJsWhitespace(s[|s| - 1]))
    ensures Trim(s) == s
  {
    assert TrimStart(s) == s;
    assert TrimEnd(s) == s;
  }

  /** Trimming a trimmed text changes nothing. */
  lemma TrimIdempotent(s: string)
    ensures Trim(Trim(s)) == Trim(s)
  {
    TrimmedAlready(Trim(s));
  }
}
