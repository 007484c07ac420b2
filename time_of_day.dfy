/**
 * OpStatsUtils.getTimeOfDayStatistics and getAverageTime. Times are seconds
 * of the day; the zone conversion from a timestamp is the parameter
 * secondOfDay.
 */
module TimeOfDay {
  import opened Wrappers
  import opened Events
  import opened JavaMath
  import Sessions

  /** OperatingHours: when an open happened and when the lock that ended it happened. */
  datatype OperatingHours = OperatingHours(open: int, close: int)

  /** TimeOfDayStats. */
  datatype TimeOfDayStats = TimeOfDayStats(averageOpenTime: Option<int>, averageCloseTime: Option<int>, operatingHours: seq<OperatingHours>)

  /** The loop variables of getTimeOfDayStatistics. */
  datatype Scan = Scan(openTimes: seq<int>, closeTimes: seq<int>, hours: seq<OperatingHours>, lastOpen: Option<int>)

  function Step(st: Scan, e: Event, secondOfDay: int -> int): Scan {
    var time := secondOfDay(e.timestamp);
    if e.eventType == OPEN then Scan(st.openTimes + [time], st.closeTimes, st.hours, Some(time))
    else if e.eventType == LOCK && st.lastOpen.Some? then
      Scan(st.openTimes, st.closeTimes + [time], st.hours + [OperatingHours(st.lastOpen.value, time)], None)
    else st
  }

  function ScanAll(events: seq<Event>, secondOfDay: int -> int): Scan {
    if events == [] then Scan([], [], [], None)
    else Step(ScanAll(events[..|events| - 1], secondOfDay), events[|events| - 1], secondOfDay)
  }

  /** getAverageTime: none for no times, otherwise the truncated mean, which lies between the earliest and the latest. */
  function AverageTime(times: seq<int>): (r: Option<int>)
    ensures r.None? <==> times == []
    ensures r.Some? ==> Least(times) <= r.value <= Greatest(times)
  {
    if times == [] then None
    else
      SumBounds(times, Least(times), Greatest(times));
      DivBetween(Sum(times), |times|, Least(times), Greatest(times));
      Some(Div(Sum(times), |times|))
  }

  function TimeOfDayStatistics(events: seq<Event>, secondOfDay: int -> int): TimeOfDayStats {
    var st := ScanAll(events, secondOfDay);
    TimeOfDayStats(AverageTime(st.openTimes), AverageTime(st.closeTimes), st.hours)
  }

  /** The second of the day of every OPEN, in row order. */
  function OpenSeconds(events: seq<Event>, secondOfDay: int -> int): seq<int> {
    if events == [] then []
    else
      var e := events[|events| - 1];
      OpenSeconds(events[..|events| - 1], secondOfDay) + (if e.eventType == OPEN then [secondOfDay(e.timestamp)] else [])
  }

  /**
   * The open times are the seconds of every OPEN; each close time is the
   * close of one operating-hours pair; and the pairs are exactly the sessions
   * of the session scan, each made of a pending open and the lock that ended it.
   */
  lemma {:induction false} ScanMatchesSessions(events: seq<Event>, secondOfDay: int -> int)
    ensures ScanAll(events, secondOfDay).openTimes == OpenSeconds(events, secondOfDay)
    ensures |ScanAll(events, secondOfDay).openTimes| == CountType(events, OPEN)
    ensures |ScanAll(events, secondOfDay).closeTimes| == |ScanAll(events, secondOfDay).hours|
    ensures forall i :: 0 <= i < |ScanAll(events, secondOfDay).hours| ==>
      ScanAll(events, secondOfDay).hours[i].close == ScanAll(events, secondOfDay).closeTimes[i]
    ensures |ScanAll(events, secondOfDay).hours| == |Sessions.ScanAll(events).openDurations|
    ensures ScanAll(events, secondOfDay).lastOpen.Some? <==> Sessions.ScanAll(events).lastOpen.Some?
    ensures ScanAll(events, secondOfDay).lastOpen.Some? ==>
      ScanAll(events, secondOfDay).lastOpen.value == secondOfDay(Sessions.ScanAll(events).lastOpen.value)
  {
    if events != [] {
      ScanMatchesSessions(events[..|events| - 1], secondOfDay);
    }
  }

  /** Every close time is the second of a LOCK that had a pending OPEN, so there are no more of them than of either kind. */
  lemma CloseTimesBounded(events: seq<Event>, secondOfDay: int -> int)
    ensures |ScanAll(events, secondOfDay).closeTimes| <= CountType(events, LOCK)
    ensures |ScanAll(events, secondOfDay).closeTimes| <= CountType(events, OPEN)
  {
    ScanMatchesSessions(events, secondOfDay);
    Sessions.ScanCounts(events);
    PairsAtMostOpens(events);
  }

  /** Each session pairs a distinct OPEN. */
  lemma {:induction false} PairsAtMostOpens(events: seq<Event>)
    ensures |Sessions.ScanAll(events).openDurations| + (if Sessions.ScanAll(events).lastOpen.Some? then 1 else 0)
      <= CountType(events, OPEN)
  {
    if events != [] {
      PairsAtMostOpens(events[..|events| - 1]);
    }
  }

  /** getTimeOfDayStatistics's loop. */
  method GetTimeOfDayStatistics(events: seq<Event>, secondOfDay: int -> int) returns (r: TimeOfDayStats)
    ensures r == TimeOfDayStatistics(events, secondOfDay)
  {
    var operatingHours: seq<OperatingHours> := [];
    var openTimes: seq<int> := [];
    var closeTimes: seq<int> := [];
    var lastOpen: Option<int> := None;
    var i := 0;
    while i < |events|
      invariant 0 <= i <= |events|
      invariant ScanAll(events[..i], secondOfDay) == Scan(openTimes, closeTimes, operatingHours, lastOpen)
    {
      assert events[..i + 1][..i] == events[..i];
      var time := secondOfDay(events[i].timestamp);
      if events[i].eventType == OPEN {
        lastOpen := Some(time);
        openTimes := openTimes + [time];
      } else if events[i].eventType == LOCK {
        if lastOpen.Some? {
          operatingHours := operatingHours + [OperatingHours(lastOpen.value, time)];
          closeTimes := closeTimes + [time];
          lastOpen := None;
        }
      }
      i := i + 1;
    }
    assert events[..|events|] == events;
    r := TimeOfDayStats(AverageTime(openTimes), AverageTime(closeTimes), operatingHours);
  }
}
