/**
 * VersionComparator.isNewer: whether one dotted version string ("1.10.2")
 * is numerically newer than another, part by part, with missing parts as 0.
 */
module VersionComparator {
  import opened Wrappers
  import opened JavaMath
  import opened Strings
  import opened Decimal

  /**
   * part.replaceAll("[^0-9].*", ""): everything from the first non-digit on
   * is removed, leaving the leading run of ASCII digits. (The `.` stops at a
   * line terminator, but the terminator is itself a non-digit and starts the
   * next match, so the rest of the string goes too.)
   */
  function LeadingDigits(s: string): (r: string)
    ensures |r| <= |s| && r == s[..|r|]
    ensures AllDigits(r)
    ensures |r| < |s| ==> !IsDigit(s[|r|])
  {
    if s != [] && IsDigit(s[0]) then [s[0]] + LeadingDigits(s[1..]) else []
  }

  /** parseVersionPart: the leading digit run as an int, or 0 when it is empty or overflows. */
  function ParseVersionPart(part: string): (n: int)
    ensures 0 <= n <= INT_MAX
  {
    var digits := LeadingDigits(part);
    match ParseInt(digits)
    case Success(v) =>
      assert digits != [] && digits[0] != '-' by { assert IsDigit(digits[0]); }
      v
    case Failure(_) => 0
  }

  /** Each piece parsed. */
  function PartsOf(pieces: seq<string>): (p: seq<int>)
    ensures |p| == |pieces| && forall i :: 0 <= i < |pieces| ==> p[i] == ParseVersionPart(pieces[i])
  {
    seq(|pieces|, i requires 0 <= i < |pieces| => ParseVersionPart(pieces[i]))
  }

  /** The parsed parts of a version, split on '.' as String.split does. */
  function Parts(version: string): seq<int> {
    PartsOf(StringSplit(version, '.'))
  }

  /** The parsed parts of every piece between the dots, trailing empty pieces included. */
  function AllParts(version: string): seq<int> {
    PartsOf(Split(version, '.'))
  }

  /** The trailing empty pieces String.split drops would parse as 0, the loop's padding value. */
  lemma PartsPadded(v: string)
    ensures forall j :: PartAt(Parts(v), j) == PartAt(AllParts(v), j)
  {
    StringSplitPieces(v, '.');
    assert ParseVersionPart("") == 0 by {
      assert LeadingDigits("") == "";
    }
  }

  /** So comparing with or without the dropped pieces gives the same answer. */
  lemma NewerAllParts(latest: string, current: string)
    ensures Newer(latest, current) <==> NewerParts(AllParts(latest), AllParts(current))
  {
    PartsPadded(latest);
    PartsPadded(current);
    SameParts(Parts(latest), AllParts(latest), Parts(current));
    SameParts(Parts(current), AllParts(current), AllParts(latest));
  }

  /** The i-th part, 0 past the end. */
  function PartAt(p: seq<int>, i: int): int {
    if 0 <= i < |p| then p[i] else 0
  }

  /** The part the loop reads at index i: the parsed i-th piece, or 0 past the end. */
  function PieceAt(pieces: seq<string>, i: nat): (p: int)
    ensures p == PartAt(PartsOf(pieces), i)
  {
    if i < |pieces| then ParseVersionPart(pieces[i]) else 0
  }

  function Max(a: int, b: int): int { if a >= b then a else b }

  /** The loop from index i up to n: 1 when a is newer, -1 when older, 0 when equal throughout. */
  function CompareFrom(a: seq<int>, b: seq<int>, i: nat, n: nat): int
    decreases n - i
  {
    if i >= n then 0
    else if PartAt(a, i) > PartAt(b, i) then 1
    else if PartAt(a, i) < PartAt(b, i) then -1
    else CompareFrom(a, b, i + 1, n)
  }

  /** isNewer on parsed parts. */
  predicate NewerParts(a: seq<int>, b: seq<int>) {
    CompareFrom(a, b, 0, Max(|a|, |b|)) == 1
  }

  /** isNewer(latest, current). */
  predicate Newer(latest: string, current: string) {
    NewerParts(Parts(latest), Parts(current))
  }

  /**
   * The reference order: a is newer than b when at some index a's part is
   * larger and all earlier parts agree (parts past the end count as 0).
   */
  ghost predicate LexGreater(a: seq<int>, b: seq<int>) {
    exists k: nat :: (forall j :: 0 <= j < k ==> PartAt(a, j) == PartAt(b, j)) && PartAt(a, k) > PartAt(b, k)
  }

  /** The loop result from i is 1 exactly when a first differing index at or after i favours a. */
  lemma {:induction false} CompareFromSpec(a: seq<int>, b: seq<int>, i: nat, n: nat)
    ensures CompareFrom(a, b, i, n) == 1 <==>
      exists k: nat :: i <= k < n && (forall j :: i <= j < k ==> PartAt(a, j) == PartAt(b, j)) && PartAt(a, k) > PartAt(b, k)
    decreases n - i
  {
    if i < n && PartAt(a, i) == PartAt(b, i) {
      CompareFromSpec(a, b, i + 1, n);
      if CompareFrom(a, b, i, n) == 1 {
        var k: nat :| i + 1 <= k < n && (forall j :: i + 1 <= j < k ==> PartAt(a, j) == PartAt(b, j)) && PartAt(a, k) > PartAt(b, k);
        assert forall j :: i <= j < k ==> PartAt(a, j) == PartAt(b, j);
      }
      if exists k: nat :: i <= k < n && (forall j :: i <= j < k ==> PartAt(a, j) == PartAt(b, j)) && PartAt(a, k) > PartAt(b, k) {
        var k: nat :| i <= k < n && (forall j :: i <= j < k ==> PartAt(a, j) == PartAt(b, j)) && PartAt(a, k) > PartAt(b, k);
        assert k != i;
      }
    }
  }

  /** isNewer agrees with the reference order: the first index where the parts differ decides. */
  lemma NewerIsLexGreater(a: seq<int>, b: seq<int>)
    ensures NewerParts(a, b) <==> LexGreater(a, b)
  {
    CompareFromSpec(a, b, 0, Max(|a|, |b|));
    if LexGreater(a, b) {
      var k: nat :| (forall j :: 0 <= j < k ==> PartAt(a, j) == PartAt(b, j)) && PartAt(a, k) > PartAt(b, k);
      assert k < Max(|a|, |b|);
    }
  }

  /** No version is newer than itself. */
  lemma Irreflexive(v: string)
    ensures !Newer(v, v)
  {
    NewerIsLexGreater(Parts(v), Parts(v));
  }

  /** Two versions are never each newer than the other. */
  lemma Asymmetric(a: seq<int>, b: seq<int>)
    ensures !(NewerParts(a, b) && NewerParts(b, a))
  {
    NewerIsLexGreater(a, b);
    NewerIsLexGreater(b, a);
    if LexGreater(a, b) {
      var k1: nat :| (forall j :: 0 <= j < k1 ==> PartAt(a, j) == PartAt(b, j)) && PartAt(a, k1) > PartAt(b, k1);
      forall k2: nat
        ensures !((forall j :: 0 <= j < k2 ==> PartAt(b, j) == PartAt(a, j)) && PartAt(b, k2) > PartAt(a, k2))
      {
        if k2 > k1 {
          assert PartAt(b, k1) < PartAt(a, k1);
        }
      }
    }
  }

  /** Newer is transitive. */
  lemma Transitive(a: seq<int>, b: seq<int>, c: seq<int>)
    requires NewerParts(a, b) && NewerParts(b, c)
    ensures NewerParts(a, c)
  {
    NewerIsLexGreater(a, b);
    NewerIsLexGreater(b, c);
    NewerIsLexGreater(a, c);
    var k1: nat :| (forall j :: 0 <= j < k1 ==> PartAt(a, j) == PartAt(b, j)) && PartAt(a, k1) > PartAt(b, k1);
    var k2: nat :| (forall j :: 0 <= j < k2 ==> PartAt(b, j) == PartAt(c, j)) && PartAt(b, k2) > PartAt(c, k2);
    var k: nat := if k1 <= k2 then k1 else k2;
    assert forall j :: 0 <= j < k ==> PartAt(a, j) == PartAt(c, j);
    assert PartAt(a, k) > PartAt(c, k);
  }

  /** Versions whose parts agree once missing parts count as 0 are compared alike. */
  lemma SameParts(a: seq<int>, a': seq<int>, b: seq<int>)
    requires forall j :: PartAt(a, j) == PartAt(a', j)
    ensures NewerParts(a, b) <==> NewerParts(a', b)
    ensures NewerParts(b, a) <==> NewerParts(b, a')
  {
    NewerIsLexGreater(a, b);
    NewerIsLexGreater(a', b);
    NewerIsLexGreater(b, a);
    NewerIsLexGreater(b, a');
  }

  /** A trailing zero part changes nothing: "1.0" and "1.0.0" are equal, neither newer. */
  lemma TrailingZero(a: seq<int>, b: seq<int>)
    ensures NewerParts(a + [0], b) <==> NewerParts(a, b)
    ensures !NewerParts(a + [0], a) && !NewerParts(a, a + [0])
  {
    assert forall j :: PartAt(a + [0], j) == PartAt(a, j);
    SameParts(a, a + [0], b);
    SameParts(a, a + [0], a);
    NewerIsLexGreater(a, a);
  }

  lemma ParsePartExamples()
    ensures ParseVersionPart("3-beta") == 3
    ensures ParseVersionPart("10rc1") == 10
    ensures ParseVersionPart("") == 0
    ensures ParseVersionPart("beta") == 0
  {
    assert LeadingDigits("3-beta") == "3";
    assert LeadingDigits("10rc1") == "10";
    assert "10"[..1] == "1" && "1"[..0] == [];
    assert LeadingDigits("beta") == "";
  }

  /** A string of digits is its own leading run. */
  lemma {:induction false} LeadingAllDigits(s: string)
    requires AllDigits(s)
    ensures LeadingDigits(s) == s
  {
    if s != [] {
      LeadingAllDigits(s[1..]);
      assert [s[0]] + s[1..] == s;
    }
  }

  /** Whatever follows the leading digit run is ignored. */
  lemma SuffixIgnored(digits: string, rest: string)
    requires AllDigits(digits)
    requires rest == [] || !IsDigit(rest[0])
    ensures LeadingDigits(digits + rest) == digits
    ensures ParseVersionPart(digits + rest) == ParseVersionPart(digits)
  {
    LeadingSuffix(digits, rest);
    LeadingAllDigits(digits);
  }

  /** The leading digit run stops where the digits do. */
  lemma {:induction false} LeadingSuffix(digits: string, rest: string)
    requires AllDigits(digits)
    requires rest == [] || !IsDigit(rest[0])
    ensures LeadingDigits(digits + rest) == digits
  {
    var s := digits + rest;
    if digits != [] {
      LeadingSuffix(digits[1..], rest);
      assert s[0] == digits[0] && IsDigit(s[0]);
      assert s[1..] == digits[1..] + rest;
      assert LeadingDigits(s) == [digits[0]] + LeadingDigits(s[1..]);
      assert [digits[0]] + digits[1..] == digits;
    } else {
      assert s == rest;
    }
  }

  /** A digit run is read as its value when that fits an int, and as 0 when it overflows. */
  lemma DigitPart(part: string)
    requires part != [] && AllDigits(part)
    ensures ParseVersionPart(part) == (if DigitsValue(part) <= INT_MAX then DigitsValue(part) else 0)
  {
    LeadingAllDigits(part);
    UnsignedParse(part);
  }

  /** Integer.parseInt of a digit run: its value when it fits an int. */
  lemma UnsignedParse(digits: string)
    requires digits != [] && AllDigits(digits)
    ensures ParseInt(digits) == (if DigitsValue(digits) <= INT_MAX then Success(DigitsValue(digits)) else Failure(NumberFormat))
  {
    assert IsDigit(digits[0]);
    assert digits[0] != '-' && digits[0] != '+';
  }

  /** The parts the examples use. */
  lemma SmallParts()
    ensures ParseVersionPart("0") == 0 && ParseVersionPart("1") == 1
    ensures ParseVersionPart("9") == 9 && ParseVersionPart("10") == 10
  {
    assert "10"[..1] == "1" && "1"[..0] == [];
    DigitPart("0");
    DigitPart("1");
    DigitPart("9");
    DigitPart("10");
  }

  /** Two dot-free pieces around one dot split into those two pieces. */
  lemma SplitTwo(x: string, y: string)
    requires '.' !in x && '.' !in y
    ensures Split(x + ['.'] + y, '.') == [x, y]
  {
    SplitFirst(x, '.', y);
    SplitNoSeparator(y, '.');
  }

  /** The parts of a version whose first piece is x. */
  lemma PartsCons(x: string, rest: string)
    requires '.' !in x
    ensures AllParts(x + ['.'] + rest) == [ParseVersionPart(x)] + AllParts(rest)
  {
    SplitFirst(x, '.', rest);
  }

  /** The parts of a two-piece version. */
  lemma PartsTwo(x: string, y: string)
    requires '.' !in x && '.' !in y
    ensures AllParts(x + ['.'] + y) == [ParseVersionPart(x), ParseVersionPart(y)]
  {
    SplitTwo(x, y);
  }

  /** Comparison is numeric: "1.10" is newer than "1.9". */
  lemma NumericNotTextual(a: string, b: string)
    requires a == "1.10" && b == "1.9"
    ensures Newer(a, b) && !Newer(b, a)
  {
    assert a == "1" + ['.'] + "10" && b == "1" + ['.'] + "9";
    PartsTwo("1", "10");
    PartsTwo("1", "9");
    SmallParts();
    var pa, pb := AllParts(a), AllParts(b);
    assert pa == [1, 10] && pb == [1, 9];
    assert NewerParts(pa, pb);
    Asymmetric(pa, pb);
    NewerAllParts(a, b);
    NewerAllParts(b, a);
  }

  /** "1.0" and "1.0.0" are the same version. */
  lemma PaddedEqual(a: string, b: string)
    requires a == "1.0" && b == "1.0.0"
    ensures !Newer(a, b) && !Newer(b, a)
  {
    assert a == "1" + ['.'] + "0" && b == "1" + ['.'] + "0.0";
    assert "0.0" == "0" + ['.'] + "0";
    PartsTwo("1", "0");
    PartsTwo("0", "0");
    PartsCons("1", "0.0");
    SmallParts();
    assert AllParts(b) == [1, 0] + [0];
    NewerAllParts(a, b);
    NewerAllParts(b, a);
    TrailingZero([1, 0], [1, 0]);
  }

  /** isNewer: the loop over the longer part list, returning at the first difference. */
  method IsNewer(latest: string, current: string) returns (newer: bool)
    ensures newer == Newer(latest, current)
  {
    var latestParts := StringSplit(latest, '.');
    var currentParts := StringSplit(current, '.');
    ghost var a := PartsOf(latestParts);
    ghost var b := PartsOf(currentParts);
    var length := Max(|latestParts|, |currentParts|);
    var i := 0;
    while i < length
      invariant 0 <= i <= length
      invariant CompareFrom(a, b, 0, length) == CompareFrom(a, b, i, length)
    {
      var latestPart := PieceAt(latestParts, i);
      var currentPart := PieceAt(currentParts, i);
      if latestPart > currentPart {
        return true;
      }
      if latestPart < currentPart {
        return false;
      }
      i := i + 1;
    }
    return false;
  }
}
