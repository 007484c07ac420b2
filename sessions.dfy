/**
 * OpStatsUtils.getSessionStatistics and buildStats: how long the space stays
 * open and closed, over the events in timestamp order.
 */
module Sessions {
  import opened Wrappers
  import opened Events
  import opened JavaMath
  import opened Sorting

  /** The loop variables of the session scan. */
  datatype Scan = Scan(openDurations: seq<int>, closedDurations: seq<int>, lastOpen: Option<int>, lastClose: Option<int>)

  /** One row of the scan. */
  function Step(st: Scan, e: Event): Scan {
    if e.eventType == OPEN then
      Scan(st.openDurations,
           st.closedDurations + (if st.lastClose.Some? then [e.timestamp - st.lastClose.value] else []),
           Some(e.timestamp), st.lastClose)
    else if e.eventType == LOCK && st.lastOpen.Some? then
      Scan(st.openDurations + [e.timestamp - st.lastOpen.value], st.closedDurations, None, Some(e.timestamp))
    else st
  }

  /** The scan over all rows. */
  function ScanAll(events: seq<Event>): Scan {
    if events == [] then Scan([], [], None, None)
    else Step(ScanAll(events[..|events| - 1]), events[|events| - 1])
  }

  /** The open and closed durations collected, with a still-pending open measured to now. */
  datatype Durations = Durations(open: seq<int>, closed: seq<int>)

  function SessionDurations(events: seq<Event>, now: int): Durations {
    var st := ScanAll(events);
    Durations(st.openDurations + (if st.lastOpen.Some? then [now - st.lastOpen.value] else []), st.closedDurations)
  }

  /** The session scan loop of getSessionStatistics. */
  method CollectDurations(events: seq<Event>, now: int) returns (d: Durations)
    ensures d == SessionDurations(events, now)
  {
    var openDurations: seq<int> := [];
    var closedDurations: seq<int> := [];
    var lastOpenTime: Option<int> := None;
    var lastCloseTime: Option<int> := None;
    var i := 0;
    while i < |events|
      invariant 0 <= i <= |events|
      invariant ScanAll(events[..i]) == Scan(openDurations, closedDurations, lastOpenTime, lastCloseTime)
    {
      assert events[..i + 1][..i] == events[..i];
      var e := events[i];
      if e.eventType == OPEN {
        if lastCloseTime.Some? {
          closedDurations := closedDurations + [e.timestamp - lastCloseTime.value];
        }
        lastOpenTime := Some(e.timestamp);
      } else if e.eventType == LOCK && lastOpenTime.Some? {
        openDurations := openDurations + [e.timestamp - lastOpenTime.value];
        lastCloseTime := Some(e.timestamp);
        lastOpenTime := None;
      }
      i := i + 1;
    }
    assert events[..|events|] == events;
    if lastOpenTime.Some? {
      openDurations := openDurations + [now - lastOpenTime.value];
    }
    d := Durations(openDurations, closedDurations);
  }

  /** The example OPEN t0, LOCK t1, OPEN t2 read at t3: open for t1 - t0 and t3 - t2, closed for t2 - t1. */
  lemma SessionExample(t0: int, t1: int, t2: int, t3: int, u0: int, u1: int, u2: int)
    ensures SessionDurations([Event(t0, OPEN, u0), Event(t1, LOCK, u1), Event(t2, OPEN, u2)], t3)
      == Durations([t1 - t0, t3 - t2], [t2 - t1])
  {
    var evs := [Event(t0, OPEN, u0), Event(t1, LOCK, u1), Event(t2, OPEN, u2)];
    assert evs[..2][..1] == [Event(t0, OPEN, u0)] && evs[..2] == [Event(t0, OPEN, u0), Event(t1, LOCK, u1)];
    assert [Event(t0, OPEN, u0)][..0] == [];
    assert ScanAll(evs[..1]) == Scan([], [], Some(t0), None);
    assert ScanAll(evs[..2]) == Scan([t1 - t0], [], None, Some(t1));
  }

  /** Every duration is measured back to an earlier row, so over ordered rows it is never negative. */
  lemma {:induction false} ScanNonNegative(events: seq<Event>)
    requires TimeOrdered(events)
    ensures var st := ScanAll(events);
      (forall i :: 0 <= i < |st.openDurations| ==> st.openDurations[i] >= 0) &&
      (forall i :: 0 <= i < |st.closedDurations| ==> st.closedDurations[i] >= 0) &&
      (st.lastOpen.Some? ==> events != [] && st.lastOpen.value <= events[|events| - 1].timestamp) &&
      (st.lastClose.Some? ==> events != [] && st.lastClose.value <= events[|events| - 1].timestamp)
  {
    if events != [] {
      var pre := events[..|events| - 1];
      assert TimeOrdered(pre);
      ScanNonNegative(pre);
      if pre != [] {
        assert pre[|pre| - 1] == events[|events| - 2];
      }
    }
  }

  /** With now no earlier than the last row, every open and closed duration is non-negative. */
  lemma SessionDurationsNonNegative(events: seq<Event>, now: int)
    requires TimeOrdered(events)
    requires events != [] ==> events[|events| - 1].timestamp <= now
    ensures forall i :: 0 <= i < |SessionDurations(events, now).open| ==> SessionDurations(events, now).open[i] >= 0
    ensures forall i :: 0 <= i < |SessionDurations(events, now).closed| ==> SessionDurations(events, now).closed[i] >= 0
  {
    ScanNonNegative(events);
  }

  /** Each open duration consumes a distinct LOCK (before now) and each closed duration a distinct OPEN. */
  lemma {:induction false} ScanCounts(events: seq<Event>)
    ensures |ScanAll(events).openDurations| <= CountType(events, LOCK)
    ensures |ScanAll(events).closedDurations| <= CountType(events, OPEN)
  {
    if events != [] {
      ScanCounts(events[..|events| - 1]);
    }
  }

  // ---------------------------------------------------------------------
  // buildStats

  /** SessionStats without the standard deviation. */
  datatype SessionStats = SessionStats(
    averageDuration: int, medianDuration: int, longestSession: int,
    shortestSession: int, totalSessions: int, totalSessionTime: int)

  /** The truncated mean of a non-empty sequence lies within its extremes (Java long division). */
  function Mean(s: seq<int>, lo: int, hi: int): (m: int)
    requires s != []
    requires forall i :: 0 <= i < |s| ==> lo <= s[i] <= hi
    ensures lo <= m <= hi
  {
    SumBounds(s, lo, hi);
    DivBetween(Sum(s), |s|, lo, hi);
    Div(Sum(s), |s|)
  }

  /** The middle element, or the truncated mean of the two middle elements, of a sorted non-empty sequence. */
  function Median(sorted: seq<int>): (m: int)
    requires sorted != [] && Ascending(sorted)
    ensures sorted[0] <= m <= sorted[|sorted| - 1]
  {
    var n := |sorted|;
    var h := n / 2;
    if n % 2 == 0 then
      var a := sorted[h - 1];
      var b := sorted[h];
      assert sorted[0] <= a <= b <= sorted[n - 1];
      DivBetween(a + b, 2, sorted[0], sorted[n - 1]);
      Div(a + b, 2)
    else sorted[h]
  }

  /** buildStats: zeros for no durations; otherwise the order statistics of the sorted durations, in Java long arithmetic. */
  function BuildStats(durations: seq<int>): (r: SessionStats)
    ensures durations == [] ==> r == SessionStats(0, 0, 0, 0, 0, 0)
    ensures durations != [] ==> r.totalSessions == |durations| && r.totalSessionTime == Sum(durations)
    ensures durations != [] ==> r.longestSession in durations && r.shortestSession in durations
    ensures durations != [] ==> forall i :: 0 <= i < |durations| ==> r.shortestSession <= durations[i] <= r.longestSession
    ensures durations != [] ==> r.shortestSession <= r.medianDuration <= r.longestSession
    ensures durations != [] ==> r.shortestSession <= r.averageDuration <= r.longestSession
    ensures durations != [] ==> r.averageDuration == Div(Sum(durations), |durations|)
    ensures durations != [] ==> r.medianDuration == Median(SortAscending(durations))
  {
    if durations == [] then SessionStats(0, 0, 0, 0, 0, 0)
    else
      var sorted := SortAscending(durations);
      var count := |sorted|;
      SumPermutation(sorted, durations);
      ExtremesOfSorted(durations, sorted);
      SessionStats(Mean(sorted, sorted[0], sorted[count - 1]), Median(sorted), sorted[count - 1], sorted[0], count, Sum(sorted))
  }

  /** The first and last elements of the sorted copy bound every duration. */
  lemma ExtremesOfSorted(durations: seq<int>, sorted: seq<int>)
    requires durations != [] && sorted == SortAscending(durations)
    ensures forall i :: 0 <= i < |sorted| ==> sorted[0] <= sorted[i] <= sorted[|sorted| - 1]
    ensures forall i :: 0 <= i < |durations| ==> sorted[0] <= durations[i] <= sorted[|sorted| - 1]
  {
    forall i | 0 <= i < |durations|
      ensures sorted[0] <= durations[i] <= sorted[|sorted| - 1]
    {
      assert durations[i] in multiset(sorted);
    }
  }

  /** On sorted durations buildStats reads its statistics straight off the input. */
  lemma BuildStatsOfSorted(durations: seq<int>)
    requires Ascending(durations) && durations != []
    ensures forall i :: 0 <= i < |durations| ==> durations[0] <= durations[i] <= durations[|durations| - 1]
    ensures BuildStats(durations) == SessionStats(
      Mean(durations, durations[0], durations[|durations| - 1]), Median(durations),
      durations[|durations| - 1], durations[0], |durations|, Sum(durations))
  {
    SortAscendingSorted(durations);
  }

  /** The median is the middle element for an odd count and the truncated mean of the two middle ones for an even count. */
  lemma MedianOfSorted(durations: seq<int>)
    requires Ascending(durations) && durations != []
    ensures var n := |durations|;
      BuildStats(durations).medianDuration ==
        (if n % 2 == 1 then durations[n / 2] else Div(durations[n / 2 - 1] + durations[n / 2], 2))
  {
    BuildStatsOfSorted(durations);
  }

  /** For any durations, the median is read off the sorted copy: its middle element, or the truncated mean of its two middle ones. */
  lemma MedianOfAny(durations: seq<int>)
    requires durations != []
    ensures var sorted, n := SortAscending(durations), |durations|;
      BuildStats(durations).medianDuration ==
        (if n % 2 == 1 then sorted[n / 2] else Div(sorted[n / 2 - 1] + sorted[n / 2], 2))
  {
  }

  lemma SumExample()
    ensures Sum([10, 20, 30, 40]) == 100
  {
    var d := [10, 20, 30, 40];
    assert [10][..0] == [];
    assert Sum([10]) == 10;
    assert [10, 20][..1] == [10];
    assert Sum([10, 20]) == 30;
    assert [10, 20, 30][..2] == [10, 20];
    assert Sum([10, 20, 30]) == 60;
    assert d[..3] == [10, 20, 30];
  }

  lemma ExampleAverage(d: seq<int>)
    requires d == [10, 20, 30, 40]
    ensures BuildStats(d).averageDuration == 25 && BuildStats(d).totalSessionTime == 100
  {
    assert Ascending(d);
    BuildStatsOfSorted(d);
    MeanExample(d);
    SumExample();
  }

  lemma MeanExample(d: seq<int>)
    requires d == [10, 20, 30, 40]
    ensures Mean(d, 10, 40) == 25
  {
    SumExample();
    assert Div(100, 4) == 25;
  }

  lemma ExampleMedian(d: seq<int>)
    requires d == [10, 20, 30, 40]
    ensures BuildStats(d).medianDuration == 25
  {
    assert Ascending(d);
    BuildStatsOfSorted(d);
    MedianExample(d);
  }

  lemma MedianExample(d: seq<int>)
    requires d == [10, 20, 30, 40]
    ensures Median(d) == 25
  {
    assert Div(50, 2) == 25;
  }

  lemma ExampleExtremes(d: seq<int>)
    requires d == [10, 20, 30, 40]
    ensures BuildStats(d).longestSession == 40 && BuildStats(d).shortestSession == 10
    ensures BuildStats(d).totalSessions == 4
  {
    assert Ascending(d);
    BuildStatsOfSorted(d);
  }

  /** [10, 20, 30, 40]: median 25, mean 25, longest 40, shortest 10, total 100. */
  lemma BuildStatsExample(d: seq<int>)
    requires d == [10, 20, 30, 40]
    ensures BuildStats(d) == SessionStats(25, 25, 40, 10, 4, 100)
  {
    ExampleAverage(d);
    ExampleMedian(d);
    ExampleExtremes(d);
  }

  /** getSessionStatistics: the open-session and closed-period summaries. */
  method GetSessionStatistics(events: seq<Event>, now: int) returns (open: SessionStats, closed: SessionStats)
    ensures open == BuildStats(SessionDurations(events, now).open)
    ensures closed == BuildStats(SessionDurations(events, now).closed)
  {
    var d := CollectDurations(events, now);
    open := BuildStats(d.open);
    closed := BuildStats(d.closed);
  }
}
