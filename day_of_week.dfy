/**
 * OpStatsUtils.getDayOfWeekStatistics: OPEN counts and paired open time per
 * weekday, and the busiest day. The zone conversion from a timestamp to a
 * weekday is the parameter dayOf.
 */
module DayOfWeekStats {
  import opened Wrappers
  import opened Events
  import opened JavaMath
  import Sessions

  /** java.time.DayOfWeek. */
  datatype DayOfWeek = MONDAY | TUESDAY | WEDNESDAY | THURSDAY | FRIDAY | SATURDAY | SUNDAY

  /** DayOfWeek.values(), the iteration order of an EnumMap. */
  const Week: seq<DayOfWeek> := [MONDAY, TUESDAY, WEDNESDAY, THURSDAY, FRIDAY, SATURDAY, SUNDAY]

  /** Every weekday is one of the seven listed in Week. */
  lemma InWeek(d: DayOfWeek)
    ensures d in Week
  {
    match d
    case MONDAY => assert Week[0] == d;
    case TUESDAY => assert Week[1] == d;
    case WEDNESDAY => assert Week[2] == d;
    case THURSDAY => assert Week[3] == d;
    case FRIDAY => assert Week[4] == d;
    case SATURDAY => assert Week[5] == d;
    case SUNDAY => assert Week[6] == d;
  }

  /** A map holding every weekday, as the seeded EnumMaps do. */
  predicate Full(m: map<DayOfWeek, int>) {
    forall d: DayOfWeek :: d in m
  }

  /** Every weekday mapped to 0. */
  function Zeros(): (m: map<DayOfWeek, int>)
    ensures Full(m) && forall d :: m[d] == 0
  {
    var m := map[MONDAY := 0, TUESDAY := 0, WEDNESDAY := 0, THURSDAY := 0, FRIDAY := 0, SATURDAY := 0, SUNDAY := 0];
    assert forall d: DayOfWeek :: d in m by {
      forall d: DayOfWeek ensures d in m {
        InWeek(d);
      }
    }
    m
  }

  /** The sum of a full map's values. */
  function WeekSum(m: map<DayOfWeek, int>): int
    requires Full(m)
  {
    m[MONDAY] + m[TUESDAY] + m[WEDNESDAY] + m[THURSDAY] + m[FRIDAY] + m[SATURDAY] + m[SUNDAY]
  }

  /** Adding x to one day adds x to the week. */
  lemma WeekSumAdd(m: map<DayOfWeek, int>, d: DayOfWeek, x: int)
    requires Full(m)
    ensures Full(m[d := m[d] + x]) && WeekSum(m[d := m[d] + x]) == WeekSum(m) + x
  {
    match d
    case MONDAY =>
    case TUESDAY =>
    case WEDNESDAY =>
    case THURSDAY =>
    case FRIDAY =>
    case SATURDAY =>
    case SUNDAY =>
  }

  /** The loop variables of getDayOfWeekStatistics. */
  datatype Scan = Scan(opensByDay: map<DayOfWeek, int>, durationByDay: map<DayOfWeek, int>,
                       lastOpenTime: Option<int>, lastOpenDay: Option<DayOfWeek>)

  predicate ValidScan(st: Scan) {
    Full(st.opensByDay) && Full(st.durationByDay) && (st.lastOpenTime.Some? <==> st.lastOpenDay.Some?)
  }

  function Step(st: Scan, e: Event, dayOf: int -> DayOfWeek): (r: Scan)
    requires ValidScan(st)
    ensures ValidScan(r)
  {
    var day := dayOf(e.timestamp);
    if e.eventType == OPEN then
      Scan(st.opensByDay[day := st.opensByDay[day] + 1], st.durationByDay, Some(e.timestamp), Some(day))
    else if e.eventType == LOCK && st.lastOpenTime.Some? && st.lastOpenDay.Some? then
      var duration := e.timestamp - st.lastOpenTime.value;
      Scan(st.opensByDay, st.durationByDay[st.lastOpenDay.value := st.durationByDay[st.lastOpenDay.value] + duration], None, None)
    else st
  }

  function ScanAll(events: seq<Event>, dayOf: int -> DayOfWeek): (r: Scan)
    ensures ValidScan(r)
  {
    if events == [] then Scan(Zeros(), Zeros(), None, None)
    else Step(ScanAll(events[..|events| - 1], dayOf), events[|events| - 1], dayOf)
  }

  /**
   * Stream.max over the entries in Monday-to-Sunday order: the index of a
   * maximum, and of the earliest one, since maxBy keeps the left operand on ties.
   */
  function MaxIndex(days: seq<DayOfWeek>, m: map<DayOfWeek, int>): (k: nat)
    requires days != [] && Full(m)
    ensures k < |days|
    ensures forall i :: 0 <= i < |days| ==> m[days[i]] <= m[days[k]]
    ensures forall i :: 0 <= i < k ==> m[days[i]] < m[days[k]]
  {
    if |days| == 1 then 0
    else
      var a := MaxIndex(days[..|days| - 1], m);
      assert days[..|days| - 1][a] == days[a];
      if m[days[a]] >= m[days[|days| - 1]] then a else |days| - 1
  }

  /** DayOfWeekStats. */
  datatype DayStats = DayStats(busiestDay: DayOfWeek, opensByDay: map<DayOfWeek, int>, durationByDay: map<DayOfWeek, int>)

  function DayOfWeekStatistics(events: seq<Event>, dayOf: int -> DayOfWeek): DayStats {
    var st := ScanAll(events, dayOf);
    DayStats(Week[MaxIndex(Week, st.durationByDay)], st.opensByDay, st.durationByDay)
  }

  /** The busiest day has the greatest paired open time, and every earlier day in the week has strictly less. */
  lemma BusiestIsEarliestMaximum(events: seq<Event>, dayOf: int -> DayOfWeek)
    ensures var r := DayOfWeekStatistics(events, dayOf);
      Full(r.durationByDay) &&
      (forall d :: r.durationByDay[d] <= r.durationByDay[r.busiestDay]) &&
      (forall i :: 0 <= i < |Week| && Week[i] != r.busiestDay && r.durationByDay[Week[i]] == r.durationByDay[r.busiestDay]
         ==> exists j :: 0 <= j < i && Week[j] == r.busiestDay)
  {
    var r := DayOfWeekStatistics(events, dayOf);
    var k := MaxIndex(Week, r.durationByDay);
    forall d ensures r.durationByDay[d] <= r.durationByDay[r.busiestDay] {
      InWeek(d);
      var i :| 0 <= i < 7 && Week[i] == d;
    }
    forall i | 0 <= i < |Week| && Week[i] != r.busiestDay && r.durationByDay[Week[i]] == r.durationByDay[r.busiestDay]
      ensures exists j :: 0 <= j < i && Week[j] == r.busiestDay
    {
      assert !(i < k);
      assert i != k;
      assert Week[k] == r.busiestDay;
    }
  }

  /** The number of OPEN events falling on day d. */
  function OpensOn(events: seq<Event>, dayOf: int -> DayOfWeek, d: DayOfWeek): nat {
    if events == [] then 0
    else
      var e := events[|events| - 1];
      OpensOn(events[..|events| - 1], dayOf, d) + (if e.eventType == OPEN && dayOf(e.timestamp) == d then 1 else 0)
  }

  /** Every OPEN is counted on its own weekday and on no other. */
  lemma {:induction false} OpensCounted(events: seq<Event>, dayOf: int -> DayOfWeek)
    ensures forall d :: ScanAll(events, dayOf).opensByDay[d] == OpensOn(events, dayOf, d)
  {
    if events != [] {
      OpensCounted(events[..|events| - 1], dayOf);
    }
  }

  /** The counts over the week add up to the number of OPENs. */
  lemma {:induction false} OpensTotal(events: seq<Event>, dayOf: int -> DayOfWeek)
    ensures WeekSum(ScanAll(events, dayOf).opensByDay) == CountType(events, OPEN)
  {
    if events != [] {
      var pre := events[..|events| - 1];
      var e := events[|events| - 1];
      OpensTotal(pre, dayOf);
      if e.eventType == OPEN {
        WeekSumAdd(ScanAll(pre, dayOf).opensByDay, dayOf(e.timestamp), 1);
      }
    }
  }

  /**
   * The paired open time summed over the week is the total of the session
   * scan's paired open durations: a trailing unpaired OPEN adds nothing,
   * and the pending open is the same in both scans.
   */
  lemma {:induction false} DurationsMatchSessions(events: seq<Event>, dayOf: int -> DayOfWeek)
    ensures WeekSum(ScanAll(events, dayOf).durationByDay) == Sum(Sessions.ScanAll(events).openDurations)
    ensures ScanAll(events, dayOf).lastOpenTime == Sessions.ScanAll(events).lastOpen
    ensures ScanAll(events, dayOf).lastOpenTime.Some? ==>
      ScanAll(events, dayOf).lastOpenDay == Some(dayOf(ScanAll(events, dayOf).lastOpenTime.value))
  {
    if events != [] {
      var pre := events[..|events| - 1];
      var e := events[|events| - 1];
      DurationsMatchSessions(pre, dayOf);
      var st := ScanAll(pre, dayOf);
      var ss := Sessions.ScanAll(pre);
      if e.eventType == LOCK && st.lastOpenTime.Some? {
        WeekSumAdd(st.durationByDay, st.lastOpenDay.value, e.timestamp - st.lastOpenTime.value);
        var open := ss.openDurations + [e.timestamp - ss.lastOpen.value];
        assert open[..|open| - 1] == ss.openDurations;
      }
    }
  }

  /** OPEN at t0 then LOCK at t1: one open and t1 - t0 credited to t0's weekday, nothing on any other day. */
  lemma PairCreditedToOpeningDay(t0: int, t1: int, u0: int, u1: int, dayOf: int -> DayOfWeek)
    ensures var r := DayOfWeekStatistics([Event(t0, OPEN, u0), Event(t1, LOCK, u1)], dayOf);
      r.opensByDay == Zeros()[dayOf(t0) := 1] && r.durationByDay == Zeros()[dayOf(t0) := t1 - t0]
  {
    var evs := [Event(t0, OPEN, u0), Event(t1, LOCK, u1)];
    assert evs[..1] == [Event(t0, OPEN, u0)];
    assert [Event(t0, OPEN, u0)][..0] == [];
    var d := dayOf(t0);
    assert ScanAll(evs[..1], dayOf) == Scan(Zeros()[d := 1], Zeros(), Some(t0), Some(d));
    assert ScanAll(evs, dayOf) == Step(ScanAll(evs[..1], dayOf), evs[1], dayOf);
  }

  /** getDayOfWeekStatistics: seeds all seven days with 0, then scans the rows. */
  method GetDayOfWeekStatistics(events: seq<Event>, dayOf: int -> DayOfWeek) returns (r: DayStats)
    ensures r == DayOfWeekStatistics(events, dayOf)
  {
    var opensByDay: map<DayOfWeek, int> := map[];
    var durationByDay: map<DayOfWeek, int> := map[];
    for k := 0 to |Week|
      invariant forall d :: d in opensByDay <==> d in Week[..k]
      invariant forall d :: d in durationByDay <==> d in Week[..k]
      invariant forall d :: d in opensByDay ==> opensByDay[d] == 0 && durationByDay[d] == 0
    {
      opensByDay := opensByDay[Week[k] := 0];
      durationByDay := durationByDay[Week[k] := 0];
    }
    assert Week[..|Week|] == Week;
    assert opensByDay == Zeros() && durationByDay == Zeros();
    var lastOpenTime: Option<int> := None;
    var lastOpenDay: Option<DayOfWeek> := None;
    var i := 0;
    while i < |events|
      invariant 0 <= i <= |events|
      invariant ScanAll(events[..i], dayOf) == Scan(opensByDay, durationByDay, lastOpenTime, lastOpenDay)
    {
      assert events[..i + 1][..i] == events[..i];
      var day := dayOf(events[i].timestamp);
      if events[i].eventType == OPEN {
        opensByDay := opensByDay[day := opensByDay[day] + 1];
        lastOpenTime := Some(events[i].timestamp);
        lastOpenDay := Some(day);
      } else if events[i].eventType == LOCK && lastOpenTime.Some? && lastOpenDay.Some? {
        var duration := events[i].timestamp - lastOpenTime.value;
        durationByDay := durationByDay[lastOpenDay.value := durationByDay[lastOpenDay.value] + duration];
        lastOpenTime := None;
        lastOpenDay := None;
      }
      i := i + 1;
    }
    assert events[..|events|] == events;
    r := DayStats(Week[MaxIndex(Week, durationByDay)], opensByDay, durationByDay);
  }
}
