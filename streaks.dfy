/**
 * OpStatsUtils.getStreakStatistics and getLongestStreak. A calendar date is
 * its day number (LocalDate.toEpochDay), so plusDays(1) is + 1; the zone
 * conversion from a timestamp is the parameter dateOf and LocalDate.now()
 * is the parameter today.
 */
module Streaks {
  import opened Wrappers
  import opened Events

  /** The dates on which some OPEN happened: the HashSet datesOpen. */
  function OpenDates(events: seq<Event>, dateOf: int -> int): set<int> {
    if events == [] then {}
    else
      var e := events[|events| - 1];
      OpenDates(events[..|events| - 1], dateOf) + (if e.eventType == OPEN then {dateOf(e.timestamp)} else {})
  }

  lemma {:induction false} OpenDatesSpec(events: seq<Event>, dateOf: int -> int)
    ensures forall d :: d in OpenDates(events, dateOf) <==>
      exists i :: 0 <= i < |events| && events[i].eventType == OPEN && dateOf(events[i].timestamp) == d
    ensures OpenDates(events, dateOf) == {} <==> CountType(events, OPEN) == 0
  {
    if events != [] {
      var pre := events[..|events| - 1];
      OpenDatesSpec(pre, dateOf);
      forall d | exists i :: 0 <= i < |events| && events[i].eventType == OPEN && dateOf(events[i].timestamp) == d
        ensures d in OpenDates(events, dateOf)
      {
        var i :| 0 <= i < |events| && events[i].eventType == OPEN && dateOf(events[i].timestamp) == d;
        if i < |pre| {
          assert pre[i] == events[i];
        }
      }
      forall d | d in OpenDates(pre, dateOf)
        ensures exists i :: 0 <= i < |events| && events[i].eventType == OPEN && dateOf(events[i].timestamp) == d
      {
        var i :| 0 <= i < |pre| && pre[i].eventType == OPEN && dateOf(pre[i].timestamp) == d;
        assert events[i] == pre[i];
      }
    }
  }

  /** The dates of s no later than d. */
  function UpTo(s: set<int>, d: int): set<int> {
    set x | x in s && x <= d
  }

  /** Stepping back one day from a date of s leaves one date fewer up to it. */
  lemma UpToShrinks(s: set<int>, d: int)
    requires d in s
    ensures |UpTo(s, d - 1)| < |UpTo(s, d)|
  {
    assert UpTo(s, d) == UpTo(s, d - 1) + {d};
  }

  /** A set that is not empty has an element (by extensionality). */
  lemma HasElement(s: set<int>)
    ensures s == {} || exists x :: x in s
  {
    if !(exists x :: x in s) {
      assert s == {};
    }
  }

  lemma {:induction false} SubsetSize(a: set<int>, b: set<int>)
    requires a <= b
    ensures |a| <= |b|
    decreases |a|
  {
    if a != {} {
      HasElement(a);
      var x :| x in a;
      SubsetSize(a - {x}, b - {x});
    }
  }

  /** The length of the run of consecutive dates of s that ends at d (0 when d is not in s). */
  function ChainEnding(s: set<int>, d: int): nat
    decreases |UpTo(s, d)|
  {
    if d in s then
      UpToShrinks(s, d);
      1 + ChainEnding(s, d - 1)
    else 0
  }

  /** A run of consecutive dates of s has no more days than s. */
  lemma {:induction false} ChainBounded(s: set<int>, d: int)
    ensures ChainEnding(s, d) <= |UpTo(s, d)| <= |s|
    decreases |UpTo(s, d)|
  {
    SubsetSize(UpTo(s, d), s);
    if d in s {
      UpToShrinks(s, d);
      ChainBounded(s, d - 1);
    }
  }

  /** Dates in strictly increasing order. */
  predicate StrictlyAscending(s: seq<int>) {
    forall i, j :: 0 <= i < j < |s| ==> s[i] < s[j]
  }

  /** A non-empty set of dates has an earliest one. */
  lemma {:induction false} HasMinimum(s: set<int>)
    requires s != {}
    ensures exists m :: m in s && forall x :: x in s ==> m <= x
    decreases |s|
  {
    HasElement(s);
    var y :| y in s;
    if s - {y} != {} {
      HasMinimum(s - {y});
      var m' :| m' in s - {y} && forall x :: x in s - {y} ==> m' <= x;
      var m := if y < m' then y else m';
      assert forall x :: x in s ==> m <= x by {
        forall x | x in s ensures m <= x {
          if x != y { assert x in s - {y}; }
        }
      }
    } else {
      assert forall x :: x in s ==> x == y;
    }
  }

  /** The earliest date of a non-empty set. */
  function Minimum(s: set<int>): (m: int)
    requires s != {}
    ensures m in s && forall x :: x in s ==> m <= x
  {
    HasMinimum(s);
    var m :| m in s && forall x :: x in s ==> m <= x;
    m
  }

  /** datesOpen.stream().sorted().toList(): the dates in increasing order. */
  function Sorted(s: set<int>): (r: seq<int>)
    ensures |r| == |s|
    ensures forall x :: x in r <==> x in s
    ensures StrictlyAscending(r)
    decreases |s|
  {
    if s == {} then []
    else
      var m := Minimum(s);
      var rest := Sorted(s - {m});
      assert forall i :: 0 <= i < |rest| ==> m < rest[i] by {
        forall i | 0 <= i < |rest| ensures m < rest[i] {
          assert rest[i] in rest;
        }
      }
      [m] + rest
  }

  /** The longer of the two. */
  function Max(a: int, b: int): int { if a >= b then a else b }

  /** The longest run ending at any of the first n dates of sorted. */
  function LongestAmong(s: set<int>, sorted: seq<int>, n: nat): nat
    requires n <= |sorted|
  {
    if n == 0 then 0
    else Max(LongestAmong(s, sorted, n - 1), ChainEnding(s, sorted[n - 1]))
  }

  /** The longest run of consecutive dates in s. */
  function Longest(s: set<int>): nat {
    var sorted := Sorted(s);
    LongestAmong(s, sorted, |sorted|)
  }

  /** StreakStats. */
  datatype StreakStats = StreakStats(currentStreak: nat, longestStreak: nat, totalDaysOpen: nat)

  function StreakStatistics(events: seq<Event>, dateOf: int -> int, today: int): StreakStats {
    var s := OpenDates(events, dateOf);
    StreakStats(ChainEnding(s, today), Longest(s), |s|)
  }

  /** Only the run at an index of sorted is measured, and every run ending at one of those dates is at most the longest. */
  lemma {:induction false} LongestAmongBounds(s: set<int>, sorted: seq<int>, n: nat)
    requires n <= |sorted|
    ensures forall i :: 0 <= i < n ==> ChainEnding(s, sorted[i]) <= LongestAmong(s, sorted, n)
    ensures n > 0 ==> exists i :: 0 <= i < n && LongestAmong(s, sorted, n) == ChainEnding(s, sorted[i])
    ensures n == 0 ==> LongestAmong(s, sorted, n) == 0
  {
    if n > 0 {
      LongestAmongBounds(s, sorted, n - 1);
    }
  }

  /**
   * The streak figures are ordered: the current run is at most the longest,
   * the longest is at most the number of open days, and there is a run of at
   * least one day exactly when some date is open.
   */
  lemma StreaksOrdered(events: seq<Event>, dateOf: int -> int, today: int)
    ensures var r := StreakStatistics(events, dateOf, today);
      r.currentStreak <= r.longestStreak <= r.totalDaysOpen &&
      (r.longestStreak >= 1 <==> CountType(events, OPEN) > 0)
  {
    var s := OpenDates(events, dateOf);
    var sorted := Sorted(s);
    OpenDatesSpec(events, dateOf);
    LongestAmongBounds(s, sorted, |sorted|);
    if today in s {
      var i :| 0 <= i < |sorted| && sorted[i] == today;
    }
    if sorted != [] {
      var i :| 0 <= i < |sorted| && LongestAmong(s, sorted, |sorted|) == ChainEnding(s, sorted[i]);
      ChainBounded(s, sorted[i]);
      assert sorted[i] in s;
    }
  }

  /** In a strictly ascending listing of all of s, the date before sorted[i] is in s exactly when it is sorted[i - 1]. */
  lemma Neighbours(s: set<int>, sorted: seq<int>, i: int)
    requires StrictlyAscending(sorted) && forall x :: x in sorted <==> x in s
    requires 0 <= i < |sorted|
    ensures sorted[i] - 1 in s <==> (i > 0 && sorted[i] == sorted[i - 1] + 1)
  {
    if sorted[i] - 1 in s {
      var k :| 0 <= k < |sorted| && sorted[k] == sorted[i] - 1;
      assert k < i;
    }
    if i > 0 && sorted[i] == sorted[i - 1] + 1 {
      assert sorted[i - 1] in sorted;
    }
  }

  /** The run ending at sorted[i] extends the run ending at sorted[i - 1] when the dates are adjacent, and is a single day otherwise. */
  lemma ChainAt(s: set<int>, sorted: seq<int>, i: int)
    requires sorted == Sorted(s)
    requires 0 <= i < |sorted|
    ensures ChainEnding(s, sorted[i]) ==
      if i > 0 && sorted[i] == sorted[i - 1] + 1 then ChainEnding(s, sorted[i - 1]) + 1 else 1
  {
    Neighbours(s, sorted, i);
    assert sorted[i] in sorted;
  }

  /** The run of consecutive dates in the list that ends at index i. */
  function RunEnding(sorted: seq<int>, i: nat): nat
    requires i < |sorted|
  {
    if i > 0 && sorted[i] == sorted[i - 1] + 1 then RunEnding(sorted, i - 1) + 1 else 1
  }

  /** The longest run of consecutive dates among the first n of the list. */
  function LongestRun(sorted: seq<int>, n: nat): nat
    requires n <= |sorted|
  {
    if n == 0 then 0 else Max(LongestRun(sorted, n - 1), RunEnding(sorted, n - 1))
  }

  /**
   * getLongestStreak: a date one after the previous one extends the current
   * run, any other date starts a new run of one; the result is the longest
   * run of consecutive dates in the list.
   */
  method GetLongestStreak(sortedDates: seq<int>) returns (longestStreak: int)
    ensures longestStreak == LongestRun(sortedDates, |sortedDates|)
  {
    longestStreak := 0;
    var tempStreak := 0;
    var previousDate: Option<int> := None;
    var i := 0;
    while i < |sortedDates|
      invariant 0 <= i <= |sortedDates|
      invariant i == 0 ==> previousDate.None? && tempStreak == 0 && longestStreak == 0
      invariant i > 0 ==> previousDate == Some(sortedDates[i - 1]) && tempStreak == RunEnding(sortedDates, i - 1)
      invariant Max(longestStreak, tempStreak) == LongestRun(sortedDates, i)
    {
      var date := sortedDates[i];
      if previousDate.None? || date == previousDate.value + 1 {
        tempStreak := tempStreak + 1;
      } else {
        longestStreak := Max(longestStreak, tempStreak);
        tempStreak := 1;
      }
      previousDate := Some(date);
      i := i + 1;
    }
    longestStreak := Max(longestStreak, tempStreak);
  }

  /** Over the sorted open dates, a run in the list is a run of consecutive calendar dates. */
  lemma {:induction false} RunIsChain(s: set<int>, sorted: seq<int>, i: nat)
    requires sorted == Sorted(s) && i < |sorted|
    ensures RunEnding(sorted, i) == ChainEnding(s, sorted[i])
  {
    ChainAt(s, sorted, i);
    if i > 0 && sorted[i] == sorted[i - 1] + 1 {
      RunIsChain(s, sorted, i - 1);
    }
  }

  /** The longest run in the sorted list is the longest run of consecutive open dates. */
  lemma {:induction false} LongestRunIsLongest(s: set<int>, sorted: seq<int>, n: nat)
    requires sorted == Sorted(s) && n <= |sorted|
    ensures LongestRun(sorted, n) == LongestAmong(s, sorted, n)
  {
    if n > 0 {
      LongestRunIsLongest(s, sorted, n - 1);
      RunIsChain(s, sorted, n - 1);
    }
  }

  /** The current-streak loop: count back from today while the date is an open date. */
  method CurrentStreak(s: set<int>, today: int) returns (currentStreak: int)
    ensures currentStreak == ChainEnding(s, today)
  {
    currentStreak := 0;
    var checkDate := today;
    while checkDate in s
      invariant ChainEnding(s, today) == currentStreak + ChainEnding(s, checkDate)
      decreases |UpTo(s, checkDate)|
    {
      UpToShrinks(s, checkDate);
      currentStreak := currentStreak + 1;
      checkDate := checkDate - 1;
    }
  }

  /** getStreakStatistics: collect the open dates, then the two streaks and the count of dates. */
  method GetStreakStatistics(events: seq<Event>, dateOf: int -> int, today: int) returns (r: StreakStats)
    ensures r == StreakStatistics(events, dateOf, today)
  {
    var datesOpen: set<int> := {};
    var i := 0;
    while i < |events|
      invariant 0 <= i <= |events|
      invariant datesOpen == OpenDates(events[..i], dateOf)
    {
      assert events[..i + 1][..i] == events[..i];
      if events[i].eventType == OPEN {
        datesOpen := datesOpen + {dateOf(events[i].timestamp)};
      }
      i := i + 1;
    }
    assert events[..|events|] == events;
    var currentStreak := CurrentStreak(datesOpen, today);
    var sortedDates := Sorted(datesOpen);
    var longestStreak := GetLongestStreak(sortedDates);
    LongestRunIsLongest(datesOpen, sortedDates, |sortedDates|);
    r := StreakStats(currentStreak, longestStreak, |datesOpen|);
  }

  /** Runs in {1, 2, 3, 5}: three days end at 3, one day ends at 5. */
  lemma ChainExample(s: set<int>)
    requires s == {1, 2, 3, 5}
    ensures ChainEnding(s, 1) == 1 && ChainEnding(s, 2) == 2 && ChainEnding(s, 3) == 3 && ChainEnding(s, 5) == 1
  {
    assert ChainEnding(s, 0) == 0;
    assert ChainEnding(s, 4) == 0;
  }

  /** Sorting the dates has one answer: any strictly ascending listing of exactly the dates of s. */
  lemma SortedUnique(s: set<int>, r: seq<int>)
    requires StrictlyAscending(r) && forall x :: x in r <==> x in s
    ensures Sorted(s) == r
  {
    ListingsEqual(Sorted(s), r);
  }

  /** Two strictly ascending sequences with the same elements are equal. */
  lemma {:induction false} ListingsEqual(a: seq<int>, b: seq<int>)
    requires StrictlyAscending(a) && StrictlyAscending(b) && forall x :: x in a <==> x in b
    ensures a == b
    decreases |a|
  {
    BothEmpty(a, b);
    if a != [] {
      SameFirst(a, b);
      forall x ensures x in a[1..] <==> x in b[1..] {
        TailMember(a, x);
        TailMember(b, x);
      }
      ListingsEqual(a[1..], b[1..]);
      assert a == [a[0]] + a[1..] && b == [b[0]] + b[1..];
    }
  }

  /** Sequences with the same elements are empty together. */
  lemma BothEmpty(a: seq<int>, b: seq<int>)
    requires forall x :: x in a <==> x in b
    ensures a == [] <==> b == []
  {
    if a != [] {
      var x := a[0];
      assert x in a;
      assert x in b;
    }
    if b != [] {
      var x := b[0];
      assert x in b;
      assert x in a;
    }
  }

  /** Two non-empty strictly ascending sequences with the same elements start alike. */
  lemma SameFirst(a: seq<int>, b: seq<int>)
    requires StrictlyAscending(a) && StrictlyAscending(b) && (forall x :: x in a <==> x in b) && a != [] && b != []
    ensures a[0] == b[0]
  {
    assert a[0] in a && b[0] in b;
    var k :| 0 <= k < |b| && b[k] == a[0];
    var j :| 0 <= j < |a| && a[j] == b[0];
    assert b[0] <= b[k] && a[0] <= a[j];
  }

  /** In a strictly ascending sequence, the tail holds exactly the elements other than the first. */
  lemma TailMember(a: seq<int>, x: int)
    requires StrictlyAscending(a) && a != []
    ensures x in a[1..] <==> x in a && x != a[0]
  {
    if x in a[1..] {
      var k :| 0 <= k < |a[1..]| && a[1..][k] == x;
      assert a[k + 1] == x;
    }
    if x in a && x != a[0] {
      var k :| 0 <= k < |a| && a[k] == x;
      assert a[1..][k - 1] == x;
    }
  }

  lemma SortedExample(s: set<int>)
    requires s == {1, 2, 3, 5}
    ensures Sorted(s) == [1, 2, 3, 5]
  {
    SortedUnique(s, [1, 2, 3, 5]);
  }

  /** The longest run among the dates 1, 2, 3, 5 given the runs ending at each. */
  lemma LongestAmongExample(s: set<int>, r: seq<int>)
    requires r == [1, 2, 3, 5]
    requires ChainEnding(s, 1) == 1 && ChainEnding(s, 2) == 2 && ChainEnding(s, 3) == 3 && ChainEnding(s, 5) == 1
    ensures LongestAmong(s, r, 4) == 3
  {
    assert LongestAmong(s, r, 1) == 1;
    assert LongestAmong(s, r, 2) == 2;
    assert LongestAmong(s, r, 3) == 3;
  }

  /** Open on days 1, 2, 3 and 5: the longest run is three days, and the current run on day 5 is one day. */
  lemma StreakExample(s: set<int>)
    requires s == {1, 2, 3, 5}
    ensures ChainEnding(s, 5) == 1 && Longest(s) == 3
  {
    ChainExample(s);
    SortedExample(s);
    LongestAmongExample(s, Sorted(s));
  }
}
