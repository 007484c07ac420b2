/** Java's integer ranges and arithmetic, stated on unbounded integers. */
module JavaMath {

  const LONG_MIN: int := -0x8000_0000_0000_0000
  const LONG_MAX: int := 0x7FFF_FFFF_FFFF_FFFF
  const INT_MAX: int := 0x7FFF_FFFF

  /** The values representable by a Java `long`. */
  predicate IsLong(x: int) {
    LONG_MIN <= x <= LONG_MAX
  }

  /** Java's `/` for a positive divisor: the quotient is truncated toward zero. */
  function Div(a: int, b: int): (q: int)
    requires b > 0
    ensures a >= 0 ==> 0 <= a - q * b < b
    ensures a < 0 ==> -b < a - q * b <= 0
  {
    if a >= 0 then a / b else -((-a) / b)
  }

  /** Multiplication by a non-negative factor is monotonic. */
  lemma {:induction false} MulMono(x: int, y: int, n: nat)
    requires x <= y
    ensures x * n <= y * n
  {
    if n > 0 {
      MulMono(x, y, n - 1);
      assert x * n == x * (n - 1) + x;
      assert y * n == y * (n - 1) + y;
    }
  }

  /** Floor division of a non-negative number between lo * n and hi * n lies in [lo, hi]. */
  lemma NatDivBetween(a: nat, n: int, lo: int, hi: int)
    requires n > 0
    requires lo * n <= a <= hi * n
    ensures lo <= a / n <= hi
  {
    var q := a / n;
    assert q * n <= a < q * n + n;
    if q < lo {
      assert (q + 1) * n == q * n + n;
      MulMono(q + 1, lo, n);
    }
  }

  /** A mean of values lying in [lo, hi] lies in [lo, hi], whichever way it is rounded. */
  lemma DivBetween(a: int, n: int, lo: int, hi: int)
    requires n > 0
    requires lo * n <= a <= hi * n
    ensures lo <= Div(a, n) <= hi
  {
    if a >= 0 {
      NatDivBetween(a, n, lo, hi);
    } else {
      assert (-hi) * n == -(hi * n) && (-lo) * n == -(lo * n);
      NatDivBetween(-a, n, -hi, -lo);
    }
  }

  /** The sum of a sequence, accumulated left to right as the source's loops do. */
  function Sum(s: seq<int>): int {
    if s == [] then 0 else Sum(s[..|s| - 1]) + s[|s| - 1]
  }

  /** Every element at most hi (at least lo) bounds the sum by |s| * hi (|s| * lo). */
  lemma {:induction false} SumBounds(s: seq<int>, lo: int, hi: int)
    requires forall i :: 0 <= i < |s| ==> lo <= s[i] <= hi
    ensures lo * |s| <= Sum(s) <= hi * |s|
  {
    if s != [] {
      var init := s[..|s| - 1];
      assert forall i :: 0 <= i < |init| ==> init[i] == s[i];
      SumBounds(init, lo, hi);
    }
  }

  /** A sum over a sequence with no negative element is not negative. */
  lemma {:induction false} SumNonNegative(s: seq<int>)
    requires forall i :: 0 <= i < |s| ==> s[i] >= 0
    ensures Sum(s) >= 0
  {
    if s != [] {
      var init := s[..|s| - 1];
      assert forall i :: 0 <= i < |init| ==> init[i] == s[i];
      SumNonNegative(init);
    }
  }

  /** Summation distributes over concatenation. */
  lemma {:induction false} SumConcat(a: seq<int>, b: seq<int>)
    ensures Sum(a + b) == Sum(a) + Sum(b)
  {
    if b != [] {
      assert (a + b)[..|a + b| - 1] == a + b[..|b| - 1];
      SumConcat(a, b[..|b| - 1]);
    } else {
      assert a + b == a;
    }
  }

  /** Removing the element at k takes exactly that element off the sum. */
  lemma SumRemove(b: seq<int>, k: int)
    requires 0 <= k < |b|
    ensures Sum(b) == Sum(b[..k] + b[k + 1..]) + b[k]
  {
    assert b == b[..k] + ([b[k]] + b[k + 1..]);
    SumConcat(b[..k], [b[k]] + b[k + 1..]);
    SumConcat([b[k]], b[k + 1..]);
    SumConcat(b[..k], b[k + 1..]);
    assert Sum([b[k]]) == b[k] by { assert [b[k]][..0] == []; }
  }

  /** The sum is invariant under permutation. */
  lemma {:induction false} SumPermutation(a: seq<int>, b: seq<int>)
    requires multiset(a) == multiset(b)
    ensures Sum(a) == Sum(b)
    decreases |a|
  {
    if a == [] {
      assert |b| == |multiset(b)| == 0;
    } else {
      var x := a[|a| - 1];
      var a' := a[..|a| - 1];
      assert x in multiset(b) by { assert x in multiset(a); }
      var k :| 0 <= k < |b| && b[k] == x;
      var b' := b[..k] + b[k + 1..];
      assert multiset(a') == multiset(b') by {
        assert a == a' + [x];
        assert b == b[..k] + [x] + b[k + 1..];
        assert multiset(b') == multiset(b) - multiset{x};
        assert multiset(a') == multiset(a) - multiset{x};
      }
      SumPermutation(a', b');
      SumRemove(b, k);
    }
  }

  /** The least element of a non-empty sequence. */
  function Least(s: seq<int>): (m: int)
    requires s != []
    ensures m in s && forall i :: 0 <= i < |s| ==> m <= s[i]
  {
    if |s| == 1 then s[0]
    else
      var m := Least(s[..|s| - 1]);
      assert forall i :: 0 <= i < |s| - 1 ==> s[i] == s[..|s| - 1][i];
      if s[|s| - 1] < m then s[|s| - 1] else m
  }

  /** The greatest element of a non-empty sequence. */
  function Greatest(s: seq<int>): (m: int)
    requires s != []
    ensures m in s && forall i :: 0 <= i < |s| ==> s[i] <= m
  {
    if |s| == 1 then s[0]
    else
      var m := Greatest(s[..|s| - 1]);
      assert forall i :: 0 <= i < |s| - 1 ==> s[i] == s[..|s| - 1][i];
      if s[|s| - 1] > m then s[|s| - 1] else m
  }
}
