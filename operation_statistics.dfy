/**
 * OperationStatistics: the older statistics class over the same `events`
 * table. Its own event type enum has only OPEN and LOCK, so the scans that
 * decode stored type names with valueOf fail on any other kind.
 */
module OperationStatistics {
  import opened Wrappers
  import opened Events
  import opened JavaMath
  import opened EventStore
  import Sessions

  /** OperationStatistics.EventType. */
  datatype OpType = OPEN | LOCK

  /** OperationStatistics.Event. */
  datatype OpEvent = OpEvent(timestamp: int, eventType: OpType, userID: int)

  /** The stored kind with the same name. */
  function Stored(t: OpType): EventType {
    if t == OpType.OPEN then EventType.OPEN else EventType.LOCK
  }

  /** EventType.valueOf on a stored kind's name: IllegalArgumentException for any kind the enum lacks. */
  function Decode(t: EventType): (r: Result<OpType>)
    ensures r.Success? <==> t == EventType.OPEN || t == EventType.LOCK
    ensures r.Success? ==> Stored(r.value) == t
  {
    if t == EventType.OPEN then Success(OpType.OPEN)
    else if t == EventType.LOCK then Success(OpType.LOCK)
    else Failure(IllegalArgument)
  }

  /** Decoding is the inverse of storing. */
  lemma DecodeStored(t: OpType)
    ensures Decode(Stored(t)) == Success(t)
  {
  }

  /** Every row decodes. */
  predicate AllDecode(events: seq<Event>) {
    forall i :: 0 <= i < |events| ==> Decode(events[i].eventType).Success?
  }

  // ---------------------------------------------------------------------
  // getTotalOperatingTime

  /** The loop variables of getTotalOperatingTime. */
  datatype Total = Total(total: int, lastOpen: Option<int>)

  function TotalStep(st: Total, e: Event): Total {
    if e.eventType == EventType.OPEN then Total(st.total, Some(e.timestamp))
    else if e.eventType == EventType.LOCK && st.lastOpen.Some? then Total(st.total + (e.timestamp - st.lastOpen.value), None)
    else st
  }

  function TotalScan(events: seq<Event>): Total {
    if events == [] then Total(0, None) else TotalStep(TotalScan(events[..|events| - 1]), events[|events| - 1])
  }

  /** The total, with a still-pending open measured to now. */
  function TotalOperatingTime(events: seq<Event>, now: int): int {
    var st := TotalScan(events);
    st.total + (if st.lastOpen.Some? then now - st.lastOpen.value else 0)
  }

  /** The running total is the sum of the session scan's open durations, and both keep the same pending open. */
  lemma {:induction false} TotalScanIsSessionSum(events: seq<Event>)
    ensures TotalScan(events).total == Sum(Sessions.ScanAll(events).openDurations)
    ensures TotalScan(events).lastOpen == Sessions.ScanAll(events).lastOpen
  {
    if events != [] {
      var pre := events[..|events| - 1];
      TotalScanIsSessionSum(pre);
      var e := events[|events| - 1];
      var s := Sessions.ScanAll(pre);
      if e.eventType == EventType.LOCK && s.lastOpen.Some? {
        var d := s.openDurations + [e.timestamp - s.lastOpen.value];
        assert d[..|d| - 1] == s.openDurations;
      }
    }
  }

  /** getTotalOperatingTime is the sum of getSessionStatistics's open sessions. */
  lemma TotalIsSumOfOpenSessions(events: seq<Event>, now: int)
    ensures TotalOperatingTime(events, now) == Sum(Sessions.SessionDurations(events, now).open)
  {
    TotalScanIsSessionSum(events);
    var s := Sessions.ScanAll(events);
    if s.lastOpen.Some? {
      SumConcat(s.openDurations, [now - s.lastOpen.value]);
      assert [now - s.lastOpen.value][..0] == [];
    } else {
      assert s.openDurations + [] == s.openDurations;
    }
  }

  // ---------------------------------------------------------------------
  // getAverageStateDuration and getLongestStatePeriod

  /** One state run: where it started and how long it lasted. */
  datatype Run = Run(start: int, duration: int)

  /** The run scan: finished runs and the start of the current run of state, if any. */
  datatype RunScan = RunScan(runs: seq<Run>, current: Option<int>)

  function RunStep(st: RunScan, e: Event, state: OpType): RunScan
    requires Decode(e.eventType).Success?
  {
    if Decode(e.eventType).value == state then
      (if st.current.None? then RunScan(st.runs, Some(e.timestamp)) else st)
    else if st.current.Some? then RunScan(st.runs + [Run(st.current.value, e.timestamp - st.current.value)], None)
    else st
  }

  function RunScanAll(events: seq<Event>, state: OpType): RunScan
    requires AllDecode(events)
  {
    if events == [] then RunScan([], None)
    else RunStep(RunScanAll(events[..|events| - 1], state), events[|events| - 1], state)
  }

  /** The runs of state, the trailing one measured to now. */
  function Runs(events: seq<Event>, state: OpType, now: int): seq<Run>
    requires AllDecode(events)
  {
    var st := RunScanAll(events, state);
    st.runs + (if st.current.Some? then [Run(st.current.value, now - st.current.value)] else [])
  }

  function DurationsOf(runs: seq<Run>): (r: seq<int>)
    ensures |r| == |runs| && forall i :: 0 <= i < |runs| ==> r[i] == runs[i].duration
  {
    seq(|runs|, i requires 0 <= i < |runs| => runs[i].duration)
  }

  /** getAverageStateDuration: the truncated mean of the run durations, 0 with no runs; valueOf's exception on an undecodable row. */
  function AverageStateDuration(events: seq<Event>, state: OpType, now: int): Result<int> {
    if !AllDecode(events) then Failure(IllegalArgument)
    else
      var d := DurationsOf(Runs(events, state, now));
      if d == [] then Success(0) else Success(Div(Sum(d), |d|))
  }

  /** The longest-period fold: a run replaces the best so far only when strictly longer. */
  function Longest(runs: seq<Run>): Run {
    if runs == [] then Run(0, 0)
    else
      var best := Longest(runs[..|runs| - 1]);
      var r := runs[|runs| - 1];
      if r.duration > best.duration then r else best
  }

  /** getLongestStatePeriod; valueOf's exception on an undecodable row. */
  function LongestStatePeriod(events: seq<Event>, state: OpType, now: int): Result<Run> {
    if !AllDecode(events) then Failure(IllegalArgument) else Success(Longest(Runs(events, state, now)))
  }

  /**
   * The longest period is (0, 0) when no run has a positive duration, and
   * otherwise the earliest run with the greatest duration.
   */
  lemma {:induction false} LongestIsEarliestMaximum(runs: seq<Run>)
    ensures Longest(runs).duration >= 0
    ensures forall i :: 0 <= i < |runs| ==> runs[i].duration <= Longest(runs).duration
    ensures Longest(runs).duration == 0 ==> Longest(runs) == Run(0, 0)
    ensures Longest(runs).duration > 0 ==>
      exists k :: 0 <= k < |runs| && Longest(runs) == runs[k] && (forall j :: 0 <= j < k ==> runs[j].duration < runs[k].duration)
  {
    if runs != [] {
      var pre := runs[..|runs| - 1];
      LongestIsEarliestMaximum(pre);
      var best := Longest(pre);
      var r := runs[|runs| - 1];
      if r.duration > best.duration {
        var k := |runs| - 1;
        forall j | 0 <= j < k ensures runs[j].duration < runs[k].duration {
          assert runs[j] == pre[j];
        }
      } else if best.duration > 0 {
        var k :| 0 <= k < |pre| && best == pre[k] && forall j :: 0 <= j < k ==> pre[j].duration < pre[k].duration;
        assert runs[k] == pre[k];
        forall j | 0 <= j < k ensures runs[j].duration < runs[k].duration {
          assert runs[j] == pre[j];
        }
      }
      forall i | 0 <= i < |runs| ensures runs[i].duration <= Longest(runs).duration {
        if i < |pre| {
          assert runs[i] == pre[i];
        }
      }
    }
  }

  /** For every state the longest period is at least the average duration. */
  lemma LongestAtLeastAverage(events: seq<Event>, state: OpType, now: int)
    requires AllDecode(events)
    ensures LongestStatePeriod(events, state, now).value.duration >= AverageStateDuration(events, state, now).value
  {
    var runs := Runs(events, state, now);
    var d := DurationsOf(runs);
    LongestIsEarliestMaximum(runs);
    var m := Longest(runs).duration;
    if d != [] {
      var least := Least(d);
      SumBounds(d, least, m);
      DivBetween(Sum(d), |d|, least, m);
    }
  }

  /**
   * A run is measured from its first event: with (A, A, B) read at times
   * 1, 2 and 5 the run of A lasts 4, not 3, and a trailing run of A is
   * measured to now.
   */
  lemma RunFromFirstEvent(u: int, now: int)
    ensures Runs([Event(1, EventType.OPEN, u), Event(2, EventType.OPEN, u), Event(5, EventType.LOCK, u)], OpType.OPEN, now)
      == [Run(1, 4)]
    ensures Runs([Event(1, EventType.LOCK, u), Event(2, EventType.OPEN, u)], OpType.OPEN, now) == [Run(2, now - 2)]
  {
    var a := [Event(1, EventType.OPEN, u), Event(2, EventType.OPEN, u), Event(5, EventType.LOCK, u)];
    assert AllDecode(a);
    assert a[..2] == [Event(1, EventType.OPEN, u), Event(2, EventType.OPEN, u)];
    assert a[..2][..1] == [Event(1, EventType.OPEN, u)];
    assert [Event(1, EventType.OPEN, u)][..0] == [];
    assert RunScanAll(a[..2][..1], OpType.OPEN) == RunScan([], Some(1));
    assert RunScanAll(a[..2], OpType.OPEN) == RunScan([], Some(1));
    assert RunScanAll(a, OpType.OPEN) == RunScan([Run(1, 4)], None);
    assert [Run(1, 4)] + [] == [Run(1, 4)];
    var b := [Event(1, EventType.LOCK, u), Event(2, EventType.OPEN, u)];
    assert AllDecode(b);
    assert b[..1] == [Event(1, EventType.LOCK, u)];
    assert b[..1][..0] == [];
    assert RunScanAll(b[..1], OpType.OPEN) == RunScan([], None);
    assert RunScanAll(b, OpType.OPEN) == RunScan([], Some(2));
    var none: seq<Run> := [];
    assert none + [Run(2, now - 2)] == [Run(2, now - 2)];
  }

  /** Timestamps of the rows with the given kind, in row order. */
  function TimesOf(events: seq<Event>, t: OpType): (r: seq<int>)
    ensures |r| == CountType(events, Stored(t))
  {
    if events == [] then []
    else TimesOf(events[..|events| - 1], t) + (if events[|events| - 1].eventType == Stored(t) then [events[|events| - 1].timestamp] else [])
  }

  /** One more row adds its timestamp exactly when it is of that kind. */
  lemma TimesSnoc(events: seq<Event>, i: nat, t: OpType)
    requires i < |events|
    ensures TimesOf(events[..i + 1], t) ==
      TimesOf(events[..i], t) + (if events[i].eventType == Stored(t) then [events[i].timestamp] else [])
  {
    assert events[..i + 1][..i] == events[..i];
  }

  /** getAllEventTimes: over time-ordered rows the timestamps come out ascending, each one a row of that kind. */
  lemma {:induction false} TimesOfOrdered(events: seq<Event>, t: OpType)
    requires TimeOrdered(events)
    ensures forall i, j :: 0 <= i < j < |TimesOf(events, t)| ==> TimesOf(events, t)[i] <= TimesOf(events, t)[j]
    ensures forall i :: 0 <= i < |TimesOf(events, t)| ==>
      exists k :: 0 <= k < |events| && events[k].eventType == Stored(t) && events[k].timestamp == TimesOf(events, t)[i]
  {
    if events != [] {
      var pre := events[..|events| - 1];
      assert TimeOrdered(pre);
      TimesOfOrdered(pre, t);
      var r := TimesOf(events, t);
      var p := TimesOf(pre, t);
      var last := events[|events| - 1];
      assert r == p + (if last.eventType == Stored(t) then [last.timestamp] else []);
      forall i | 0 <= i < |r|
        ensures exists k :: 0 <= k < |events| && events[k].eventType == Stored(t) && events[k].timestamp == r[i]
      {
        if i < |p| {
          assert r[i] == p[i];
          var k :| 0 <= k < |pre| && pre[k].eventType == Stored(t) && pre[k].timestamp == p[i];
          assert events[k] == pre[k];
        } else {
          var k := |events| - 1;
          assert events[k].eventType == Stored(t) && events[k].timestamp == r[i];
        }
      }
      forall i, j | 0 <= i < j < |r| ensures r[i] <= r[j] {
        assert r[i] == p[i];
        if j >= |p| {
          var k :| 0 <= k < |pre| && pre[k].eventType == Stored(t) && pre[k].timestamp == p[i];
          assert events[k] == pre[k];
        } else {
          assert r[j] == p[j];
        }
      }
      assert r == TimesOf(events, t);
    } else {
      assert |TimesOf(events, t)| == 0;
    }
  }

  /** Extending the decoded prefix by one decodable row is one more RunStep. */
  lemma RunScanSnoc(events: seq<Event>, i: nat, state: OpType)
    requires i < |events| && AllDecode(events[..i]) && Decode(events[i].eventType).Success?
    ensures AllDecode(events[..i + 1])
    ensures RunScanAll(events[..i + 1], state) == RunStep(RunScanAll(events[..i], state), events[i], state)
  {
    var next := events[..i + 1];
    forall k | 0 <= k < |next| ensures Decode(next[k].eventType).Success? {
      if k < i {
        assert next[k] == events[..i][k];
      }
    }
    assert next[..i] == events[..i];
  }

  /** OperationStatistics over the events table. */
  /** The run loop shared by the two run-based queries: the runs, or valueOf's exception. */
  method ScanRuns(events: seq<Event>, state: OpType, now: int) returns (r: Result<seq<Run>>)
    ensures AllDecode(events) <==> r.Success?
    ensures r.Success? ==> r.value == Runs(events, state, now)
    ensures r.Failure? ==> r.error == IllegalArgument
  {
    var runs: seq<Run> := [];
    var stateStart: Option<int> := None;
    var i := 0;
    while i < |events|
      invariant 0 <= i <= |events|
      invariant AllDecode(events[..i])
      invariant RunScanAll(events[..i], state) == RunScan(runs, stateStart)
    {
      var ty := Decode(events[i].eventType);
      if ty.Failure? {
        assert !AllDecode(events) by {
          assert !Decode(events[i].eventType).Success?;
        }
        return Failure(ty.error);
      }
      RunScanSnoc(events, i, state);
      ghost var before := RunScan(runs, stateStart);
      var ts := events[i].timestamp;
      if ty.value == state {
        if stateStart.None? {
          stateStart := Some(ts);
        }
      } else {
        if stateStart.Some? {
          runs := runs + [Run(stateStart.value, ts - stateStart.value)];
          stateStart := None;
        }
      }
      assert RunScan(runs, stateStart) == RunStep(before, events[i], state);
      i := i + 1;
    }
    assert events[..|events|] == events;
    if stateStart.Some? {
      runs := runs + [Run(stateStart.value, now - stateStart.value)];
    }
    r := Success(runs);
  }

  class Statistics {
    const store: Store

    constructor (store: Store)
      ensures this.store == store
    {
      this.store := store;
    }

    /** logEvent: one row appended, or nothing when the insert fails; the failure is not reported. */
    method LogEvent(e: OpEvent, insertOk: bool)
      requires store.Valid()
      modifies store
      ensures store.Valid()
      ensures store.rows == old(store.rows) +
        (if insertOk then [Row(old(store.nextId), Event(e.timestamp, Stored(e.eventType), e.userID))] else [])
      ensures store.nextId == old(store.nextId) + (if insertOk then 1 else 0)
    {
      var _ := store.LogEvent(Event(e.timestamp, Stored(e.eventType), e.userID), insertOk);
    }

    /** getTotalOperatingTime, with the clock reading now. */
    method GetTotalOperatingTime(now: int) returns (total: int)
      ensures total == TotalOperatingTime(store.Events(), now)
    {
      var events := store.Events();
      var totalTime := 0;
      var lastOpenTime: Option<int> := None;
      var i := 0;
      while i < |events|
        invariant 0 <= i <= |events|
        invariant TotalScan(events[..i]) == Total(totalTime, lastOpenTime)
      {
        assert events[..i + 1][..i] == events[..i];
        var e := events[i];
        if e.eventType == EventType.OPEN {
          lastOpenTime := Some(e.timestamp);
        } else if e.eventType == EventType.LOCK && lastOpenTime.Some? {
          totalTime := totalTime + (e.timestamp - lastOpenTime.value);
          lastOpenTime := None;
        }
        i := i + 1;
      }
      assert events[..|events|] == events;
      if lastOpenTime.Some? {
        totalTime := totalTime + (now - lastOpenTime.value);
      }
      total := totalTime;
    }

    /** getAllEventTimes(type). */
    method GetAllEventTimes(t: OpType) returns (timestamps: seq<int>)
      ensures timestamps == TimesOf(store.Events(), t)
    {
      var events := store.Events();
      timestamps := [];
      var i := 0;
      while i < |events|
        invariant 0 <= i <= |events|
        invariant timestamps == TimesOf(events[..i], t)
      {
        TimesSnoc(events, i, t);
        if events[i].eventType == Stored(t) {
          timestamps := timestamps + [events[i].timestamp];
        }
        i := i + 1;
      }
      assert events[..|events|] == events;
    }

    /** getAverageStateDuration(state). */
    method GetAverageStateDuration(state: OpType, now: int) returns (r: Result<int>)
      ensures r == AverageStateDuration(store.Events(), state, now)
    {
      var runs := ScanRuns(store.Events(), state, now);
      if runs.Failure? {
        return Failure(runs.error);
      }
      var durations := DurationsOf(runs.value);
      if durations == [] {
        return Success(0);
      }
      var sum := 0;
      var i := 0;
      while i < |durations|
        invariant 0 <= i <= |durations|
        invariant sum == Sum(durations[..i])
      {
        assert durations[..i + 1][..i] == durations[..i];
        sum := sum + durations[i];
        i := i + 1;
      }
      assert durations[..|durations|] == durations;
      r := Success(Div(sum, |durations|));
    }

    /** getLongestStatePeriod(state). */
    method GetLongestStatePeriod(state: OpType, now: int) returns (r: Result<Run>)
      ensures r == LongestStatePeriod(store.Events(), state, now)
    {
      var runs := ScanRuns(store.Events(), state, now);
      if runs.Failure? {
        return Failure(runs.error);
      }
      var longest := Run(0, 0);
      var i := 0;
      while i < |runs.value|
        invariant 0 <= i <= |runs.value|
        invariant longest == Longest(runs.value[..i])
      {
        assert runs.value[..i + 1][..i] == runs.value[..i];
        if runs.value[i].duration > longest.duration {
          longest := runs.value[i];
        }
        i := i + 1;
      }
      assert runs.value[..|runs.value|] == runs.value;
      r := Success(longest);
    }

    /** getLastEvent: the latest row, none for an empty table, valueOf's exception for a kind the enum lacks. */
    function GetLastEvent(): (r: Result<Option<OpEvent>>)
      reads store
      ensures store.rows == [] <==> r == Success(None)
      ensures store.rows != [] ==> (r.Failure? <==> Decode(store.GetLastEvent(0).value.eventType).Failure?)
      ensures r.Failure? ==> r.error == IllegalArgument
      ensures r.Success? && r.value.Some? ==>
        var last := store.GetLastEvent(0).value;
        Stored(r.value.value.eventType) == last.eventType &&
        r.value.value.timestamp == last.timestamp && r.value.value.userID == last.userID
    {
      var last := store.GetLastEvent(0);
      if last.None? then Success(None)
      else
        var t := Decode(last.value.eventType);
        if t.Failure? then Failure(t.error)
        else Success(Some(OpEvent(last.value.timestamp, t.value, last.value.userID)))
    }
  }
}
