/** The java.lang.String operations the modelled code relies on, on seq<char>. */
module Strings {

  /** Character.isWhitespace: the Unicode space separators except the no-break ones, plus the ASCII controls. */
  predicate IsWhitespace(c: char) {
    || c == ' ' || c == '\t' || c == '\n' || c == '\U{000B}' || c == '\U{000C}' || c == '\r'
    || ('\U{001C}' <= c <= '\U{001F}')
    || c == '\U{1680}' || ('\U{2000}' <= c <= '\U{2006}') || ('\U{2008}' <= c <= '\U{200A}')
    || c == '\U{2028}' || c == '\U{2029}' || c == '\U{205F}' || c == '\U{3000}'
  }

  /** String.isBlank: empty, or whitespace only. */
  predicate IsBlank(s: string) {
    forall i :: 0 <= i < |s| ==> IsWhitespace(s[i])
  }

  /** String.startsWith. */
  predicate StartsWith(s: string, prefix: string) {
    |prefix| <= |s| && s[..|prefix|] == prefix
  }

  /** String.contains: t occurs somewhere in s. */
  predicate Contains(s: string, t: string) {
    StartsWith(s, t) || (s != [] && Contains(s[1..], t))
  }

  /**
   * The pieces between the separators, empty ones included: n separators give
   * n + 1 pieces (what `split` with a negative limit returns).
   */
  function Split(s: string, sep: char): (r: seq<string>)
    ensures |r| >= 1
    ensures forall i :: 0 <= i < |r| ==> sep !in r[i]
  {
    if s == [] then [[]]
    else
      var rest := Split(s[1..], sep);
      if s[0] == sep then [[]] + rest
      else [[s[0]] + rest[0]] + rest[1..]
  }

  /** The pieces with every trailing empty piece removed. */
  function DropTrailingEmpty(pieces: seq<string>): (r: seq<string>)
    ensures |r| <= |pieces| && r == pieces[..|r|]
    ensures forall i :: |r| <= i < |pieces| ==> pieces[i] == []
    ensures r == [] || r[|r| - 1] != []
  {
    if pieces != [] && pieces[|pieces| - 1] == [] then DropTrailingEmpty(pieces[..|pieces| - 1]) else pieces
  }

  /**
   * String.split with a one-character pattern: text without the separator comes
   * back whole; otherwise the pieces between the separators with the trailing
   * empty ones removed, so "1,".split(",") is ["1"] and ",".split(",") is empty.
   */
  function StringSplit(s: string, sep: char): (r: seq<string>)
    ensures sep !in s ==> r == [s]
    ensures sep in s ==> r == DropTrailingEmpty(Split(s, sep))
    ensures forall i :: 0 <= i < |r| ==> sep !in r[i]
  {
    if sep !in s then [s] else DropTrailingEmpty(Split(s, sep))
  }

  /** What String.split leaves out of the full list of pieces is a run of empty pieces at the end. */
  lemma StringSplitPieces(s: string, sep: char)
    ensures var r, all := StringSplit(s, sep), Split(s, sep);
      |r| <= |all| && r == all[..|r|] && forall i :: |r| <= i < |all| ==> all[i] == []
  {
    if sep !in s {
      SplitNoSeparator(s, sep);
    }
  }

  /** The pieces joined with the separator between consecutive ones; no pieces give "". */
  function Join(parts: seq<string>, sep: char): string {
    if |parts| == 0 then ""
    else if |parts| == 1 then parts[0]
    else parts[0] + [sep] + Join(parts[1..], sep)
  }

  /** A string without the separator splits into itself. */
  lemma {:induction false} SplitNoSeparator(p: string, sep: char)
    requires sep !in p
    ensures Split(p, sep) == [p]
  {
    if p != [] {
      SplitNoSeparator(p[1..], sep);
      assert [p[0]] + p[1..] == p;
    }
  }

  /** A separator-free prefix followed by the separator splits off as the first piece. */
  lemma {:induction false} SplitFirst(p: string, sep: char, tail: string)
    requires sep !in p
    ensures Split(p + [sep] + tail, sep) == [p] + Split(tail, sep)
  {
    var s := p + [sep] + tail;
    if p == [] {
      assert s[1..] == tail;
    } else {
      assert s[1..] == p[1..] + [sep] + tail;
      SplitFirst(p[1..], sep, tail);
      assert [p[0]] + p[1..] == p;
    }
  }

  /** Splitting undoes joining when no piece contains the separator. */
  lemma {:induction false} SplitJoin(parts: seq<string>, sep: char)
    requires |parts| >= 1
    requires forall i :: 0 <= i < |parts| ==> sep !in parts[i]
    ensures Split(Join(parts, sep), sep) == parts
  {
    if |parts| == 1 {
      SplitNoSeparator(parts[0], sep);
    } else {
      SplitJoin(parts[1..], sep);
      SplitFirst(parts[0], sep, Join(parts[1..], sep));
      assert [parts[0]] + parts[1..] == parts;
    }
  }

  /** Every character of Join(parts) is a separator or a character of some piece. */
  lemma {:induction false} JoinChars(parts: seq<string>, sep: char, c: char)
    requires c in Join(parts, sep)
    ensures c == sep || exists i :: 0 <= i < |parts| && c in parts[i]
  {
    if |parts| > 1 {
      var rest := Join(parts[1..], sep);
      if c !in parts[0] && c != sep {
        assert c in rest;
        JoinChars(parts[1..], sep, c);
        var i :| 0 <= i < |parts[1..]| && c in parts[1..][i];
        assert c in parts[i + 1];
      }
    }
  }

  /** r is s[a..b], and everything outside [a, b) is at or below U+0020. */
  predicate TrimmedSlice(s: string, r: string, a: int, b: int) {
    0 <= a <= b <= |s| && r == s[a..b] &&
    (forall i :: 0 <= i < a ==> s[i] <= ' ') && (forall i :: b <= i < |s| ==> s[i] <= ' ')
  }

  /** String.trim: drops every leading and trailing character at or below U+0020. */
  function Trim(s: string): (r: string)
    ensures |r| <= |s|
    ensures r == [] || (r[0] > ' ' && r[|r| - 1] > ' ')
  {
    var t := TrimStart(s);
    assert TrimEnd(t) != [] ==> TrimEnd(t)[0] == t[0];
    TrimEnd(t)
  }

  /** String.trim removes exactly the maximal leading and trailing runs of characters at or below U+0020. */
  lemma TrimSpec(s: string)
    ensures exists a, b :: TrimmedSlice(s, Trim(s), a, b)
  {
    var t := TrimStart(s);
    var r := TrimEnd(t);
    SliceBetween(s, t, r);
    assert TrimmedSlice(s, Trim(s), |s| - |t|, |s| - |t| + |r|);
  }

  /** A prefix r of a suffix t of s, with only low characters around it, is a trimmed slice of s. */
  lemma SliceBetween(s: string, t: string, r: string)
    requires |t| <= |s| && t == s[|s| - |t|..]
    requires |r| <= |t| && r == t[..|r|]
    requires forall i :: 0 <= i < |s| - |t| ==> s[i] <= ' '
    requires forall i :: |r| <= i < |t| ==> t[i] <= ' '
    ensures TrimmedSlice(s, r, |s| - |t|, |s| - |t| + |r|)
  {
    var a := |s| - |t|;
    assert r == s[a..a + |r|];
    forall i | a + |r| <= i < |s|
      ensures s[i] <= ' '
    {
      assert s[i] == t[i - a];
    }
  }

  function TrimStart(s: string): (r: string)
    ensures |r| <= |s|
    ensures r == [] || r[0] > ' '
    ensures r == s[|s| - |r|..]
    ensures forall i :: 0 <= i < |s| - |r| ==> s[i] <= ' '
  {
    if s != [] && s[0] <= ' ' then TrimStart(s[1..]) else s
  }

  function TrimEnd(s: string): (r: string)
    ensures |r| <= |s|
    ensures r == [] || r[|r| - 1] > ' '
    ensures r == s[..|r|]
    ensures forall i :: |r| <= i < |s| ==> s[i] <= ' '
  {
    if s != [] && s[|s| - 1] <= ' ' then TrimEnd(s[..|s| - 1]) else s
  }
}
