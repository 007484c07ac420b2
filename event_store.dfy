/**
 * The `events` table as OpStatsUtils reads and writes it: rows of
 * (id, timestamp, event_type, user_id) with AUTOINCREMENT ids.
 */
module EventStore {
  import opened Wrappers
  import opened Events
  import Sorting

  datatype Row = Row(id: int, event: Event)

  /** Ids are positive, strictly increasing in insertion order, and below the next id to assign. */
  predicate WellFormed(rows: seq<Row>, nextId: int) {
    && nextId >= 1
    && (forall i :: 0 <= i < |rows| ==> 1 <= rows[i].id < nextId)
    && (forall i, j :: 0 <= i < j < |rows| ==> rows[i].id < rows[j].id)
  }

  function RowTime(r: Row): int { r.event.timestamp }

  /**
   * The rows as `ORDER BY timestamp` returns them through the timestamp index:
   * ascending timestamps, rows with equal timestamps in id (insertion) order.
   */
  function Chronological(rows: seq<Row>): (r: seq<Row>)
    ensures |r| == |rows| && multiset(r) == multiset(rows)
    ensures forall i, j :: 0 <= i < j < |r| ==> r[i].event.timestamp <= r[j].event.timestamp
  {
    Sorting.SortBy(rows, RowTime)
  }

  function EventsOf(rows: seq<Row>): (r: seq<Event>)
    ensures |r| == |rows| && forall i :: 0 <= i < |rows| ==> r[i] == rows[i].event
  {
    seq(|rows|, i requires 0 <= i < |rows| => rows[i].event)
  }

  /** The event of the row with that id, if there is one (`SELECT ... WHERE id = ?`). */
  function Find(rows: seq<Row>, id: int): (r: Option<Event>)
    ensures r.Some? ==> exists i :: 0 <= i < |rows| && rows[i].id == id && rows[i].event == r.value
    ensures r.None? ==> forall i :: 0 <= i < |rows| ==> rows[i].id != id
  {
    if rows == [] then None
    else if rows[0].id == id then Some(rows[0].event)
    else
      var r := Find(rows[1..], id);
      assert forall i :: 1 <= i < |rows| ==> rows[i] == rows[1..][i - 1];
      r
  }

  /**
   * `ORDER BY timestamp DESC LIMIT 1 OFFSET k`: the (k+1)-th latest event, or
   * none when there are not that many rows. SQLite reads a negative offset as 0.
   */
  function LastEvent(rows: seq<Row>, offset: int): (r: Option<Event>)
    ensures r.None? <==> (if offset < 0 then 0 else offset) >= |rows|
    ensures r.Some? ==> exists i :: 0 <= i < |rows| && rows[i].event == r.value
  {
    var k := if offset < 0 then 0 else offset;
    if k >= |rows| then None
    else
      var sorted := Chronological(rows);
      var row := sorted[|rows| - 1 - k];
      assert row in multiset(rows) by { assert row in multiset(sorted); }
      Some(row.event)
  }

  /** The latest event has the greatest timestamp in the table. */
  lemma LastEventIsLatest(rows: seq<Row>)
    requires rows != []
    ensures LastEvent(rows, 0).Some?
    ensures forall i :: 0 <= i < |rows| ==> rows[i].event.timestamp <= LastEvent(rows, 0).value.timestamp
  {
    var sorted := Chronological(rows);
    forall i | 0 <= i < |rows| ensures rows[i].event.timestamp <= sorted[|rows| - 1].event.timestamp {
      assert rows[i] in multiset(sorted) by { assert rows[i] in multiset(rows); }
      var j :| 0 <= j < |sorted| && sorted[j] == rows[i];
    }
  }

  /** Events are listed latest first: a larger offset never gives a later event. */
  lemma LastEventMonotone(rows: seq<Row>, k: nat, m: nat)
    requires k <= m < |rows|
    ensures LastEvent(rows, m).value.timestamp <= LastEvent(rows, k).value.timestamp
  {
  }

  /** The events that offsets 0, 1, ..., |rows| - 1 return, latest first. */
  function ByOffset(rows: seq<Row>): (r: seq<Event>)
    ensures |r| == |rows|
    ensures forall k :: 0 <= k < |rows| ==> LastEvent(rows, k) == Some(r[k])
  {
    seq(|rows|, k requires 0 <= k < |rows| => LastEvent(rows, k).value)
  }

  /**
   * Walking the offsets lists every stored event exactly once. With
   * LastEventMonotone this fixes the rank: offset k gives the (k+1)-th latest.
   */
  lemma OffsetsListEveryEvent(rows: seq<Row>)
    ensures multiset(ByOffset(rows)) == multiset(EventsOf(rows))
  {
    var sorted := Chronological(rows);
    var listed := EventsOf(sorted);
    ReversedMultiset(ByOffset(rows), listed);
    EventsPermutation(sorted, rows);
  }

  /** A sequence read backwards holds the same elements. */
  lemma {:induction false} ReversedMultiset<T>(r: seq<T>, s: seq<T>)
    requires |r| == |s| && forall k :: 0 <= k < |s| ==> r[k] == s[|s| - 1 - k]
    ensures multiset(r) == multiset(s)
    decreases |s|
  {
    if s != [] {
      var n := |s|;
      var s' := s[..n - 1];
      forall k | 0 <= k < n - 1
        ensures r[1..][k] == s'[|s'| - 1 - k]
      {
        assert r[1..][k] == r[k + 1];
      }
      ReversedMultiset(r[1..], s');
      assert r == [r[0]] + r[1..];
      assert s == s' + [s[n - 1]];
    }
  }

  /** Permuting the rows permutes their events. */
  lemma {:induction false} EventsPermutation(a: seq<Row>, b: seq<Row>)
    requires multiset(a) == multiset(b)
    ensures multiset(EventsOf(a)) == multiset(EventsOf(b))
    decreases |a|
  {
    if a == [] {
      assert |b| == |multiset(b)| == 0;
    } else {
      var x := a[|a| - 1];
      assert x in multiset(b) by { assert x in multiset(a); }
      var k :| 0 <= k < |b| && b[k] == x;
      RemoveAt(a, |a| - 1);
      RemoveAt(b, k);
      EventsPermutation(a[..|a| - 1] + a[|a|..], b[..k] + b[k + 1..]);
    }
  }

  /** Taking out the row at k takes out its event. */
  lemma RemoveAt(b: seq<Row>, k: int)
    requires 0 <= k < |b|
    ensures multiset(b[..k] + b[k + 1..]) == multiset(b) - multiset{b[k]}
    ensures multiset(EventsOf(b)) == multiset(EventsOf(b[..k] + b[k + 1..])) + multiset{b[k].event}
  {
    assert b == b[..k] + ([b[k]] + b[k + 1..]);
    EventsConcat(b[..k], [b[k]] + b[k + 1..]);
    EventsConcat([b[k]], b[k + 1..]);
    EventsConcat(b[..k], b[k + 1..]);
    assert EventsOf([b[k]]) == [b[k].event];
  }

  lemma EventsConcat(a: seq<Row>, b: seq<Row>)
    ensures EventsOf(a + b) == EventsOf(a) + EventsOf(b)
  {
  }

  /** The row `UPDATE ... WHERE id = ? AND user_id = -1` would change. */
  predicate ClaimableAt(rows: seq<Row>, i: int, id: int)
    requires 0 <= i < |rows|
  {
    rows[i].id == id && rows[i].event.userID == SYSTEM_USER
  }

  /** Some row has that id and the system user id. */
  predicate Claimable(rows: seq<Row>, id: int) {
    exists i :: 0 <= i < |rows| && ClaimableAt(rows, i, id)
  }

  /** The number of rows the claim `UPDATE` changes. */
  function ClaimCount(rows: seq<Row>, id: int): nat {
    if rows == [] then 0
    else ClaimCount(rows[..|rows| - 1], id) + (if ClaimableAt(rows, |rows| - 1, id) then 1 else 0)
  }

  /** The table after `UPDATE events SET user_id = u WHERE id = ? AND user_id = -1`. */
  function Claimed(rows: seq<Row>, id: int, u: int): (r: seq<Row>)
    ensures |r| == |rows|
  {
    seq(|rows|, i requires 0 <= i < |rows| =>
      if ClaimableAt(rows, i, id) then
        Row(rows[i].id, Event(rows[i].event.timestamp, rows[i].event.eventType, u))
      else rows[i])
  }

  /** With unique ids the claim changes one row exactly when a claimable row exists, and never more. */
  lemma {:induction false} ClaimCountIsOne(rows: seq<Row>, nextId: int, id: int)
    requires WellFormed(rows, nextId)
    ensures ClaimCount(rows, id) <= 1
    ensures ClaimCount(rows, id) == 1 <==> Claimable(rows, id)
  {
    if rows != [] {
      var init := rows[..|rows| - 1];
      assert forall i :: 0 <= i < |init| ==> init[i] == rows[i];
      ClaimCountIsOne(init, nextId, id);
      if ClaimableAt(rows, |rows| - 1, id) {
        assert !Claimable(init, id) by {
          forall i | 0 <= i < |init| ensures !ClaimableAt(init, i, id) {
            assert rows[i].id < rows[|rows| - 1].id;
          }
        }
      }
      if ClaimableAt(rows, |rows| - 1, id) {
        assert Claimable(rows, id);
      } else {
        if Claimable(rows, id) {
          var i :| 0 <= i < |rows| && ClaimableAt(rows, i, id);
          assert ClaimableAt(init, i, id);
        }
        if Claimable(init, id) {
          var i :| 0 <= i < |init| && ClaimableAt(init, i, id);
          assert ClaimableAt(rows, i, id);
        }
      }
    }
  }

  /**
   * A claim changes only the user id of the claimed row; ids, timestamps,
   * kinds and every other row stay as they were, and the table stays well formed.
   */
  lemma ClaimChangesOnlyUser(rows: seq<Row>, nextId: int, id: int, u: int)
    requires WellFormed(rows, nextId)
    ensures WellFormed(Claimed(rows, id, u), nextId)
    ensures forall i :: 0 <= i < |rows| ==>
      && Claimed(rows, id, u)[i].id == rows[i].id
      && Claimed(rows, id, u)[i].event.timestamp == rows[i].event.timestamp
      && Claimed(rows, id, u)[i].event.eventType == rows[i].event.eventType
    ensures forall i :: 0 <= i < |rows| && rows[i].id != id ==> Claimed(rows, id, u)[i] == rows[i]
    ensures !Claimable(rows, id) ==> Claimed(rows, id, u) == rows
  {
  }

  /** After a successful claim by a real user, the event carries that user and cannot be claimed again. */
  lemma ClaimIsFinal(rows: seq<Row>, nextId: int, id: int, u: int)
    requires WellFormed(rows, nextId)
    requires u != SYSTEM_USER
    ensures !Claimable(Claimed(rows, id, u), id)
    ensures Claimable(rows, id) ==> Find(Claimed(rows, id, u), id).Some? && Find(Claimed(rows, id, u), id).value.userID == u
  {
    var r := Claimed(rows, id, u);
    if Claimable(rows, id) {
      var i :| 0 <= i < |rows| && ClaimableAt(rows, i, id);
      var f := Find(r, id);
      assert r[i].id == id;
      var j :| 0 <= j < |r| && r[j].id == id && r[j].event == f.value;
    }
  }

  /** Of two consecutive claims of one event by real users, only the first can succeed, and it wins. */
  lemma TwoClaimsOneWinner(rows: seq<Row>, nextId: int, id: int, a: int, b: int)
    requires WellFormed(rows, nextId)
    requires a != SYSTEM_USER && b != SYSTEM_USER
    requires Claimable(rows, id)
    ensures !Claimable(Claimed(rows, id, a), id)
    ensures Claimed(Claimed(rows, id, a), id, b) == Claimed(rows, id, a)
    ensures Find(Claimed(Claimed(rows, id, a), id, b), id).Some?
    ensures Find(Claimed(Claimed(rows, id, a), id, b), id).value.userID == a
  {
    ClaimIsFinal(rows, nextId, id, a);
    ClaimChangesOnlyUser(rows, nextId, id, a);
    ClaimChangesOnlyUser(Claimed(rows, id, a), nextId, id, b);
  }

  /** A row appended with a fresh id is what a lookup by that id returns. */
  lemma FindAppended(rows: seq<Row>, nextId: int, e: Event)
    requires WellFormed(rows, nextId)
    ensures WellFormed(rows + [Row(nextId, e)], nextId + 1)
    ensures Find(rows + [Row(nextId, e)], nextId) == Some(e)
    ensures forall id :: id != nextId ==> Find(rows + [Row(nextId, e)], id) == Find(rows, id)
  {
    var r := rows + [Row(nextId, e)];
    var f := Find(r, nextId);
    assert r[|rows|].id == nextId;
    if f.Some? {
      var j :| 0 <= j < |r| && r[j].id == nextId && r[j].event == f.value;
      assert j == |rows|;
    }
    forall id | id != nextId ensures Find(r, id) == Find(rows, id) {
      FindAppendedOther(rows, Row(nextId, e), id);
    }
  }

  lemma {:induction false} FindAppendedOther(rows: seq<Row>, row: Row, id: int)
    requires row.id != id
    ensures Find(rows + [row], id) == Find(rows, id)
  {
    if rows != [] {
      assert (rows + [row])[1..] == rows[1..] + [row];
      FindAppendedOther(rows[1..], row, id);
    }
  }

  /** The in-memory `events` table. */
  class Store {
    var rows: seq<Row>
    var nextId: int

    ghost predicate Valid()
      reads this
    {
      WellFormed(rows, nextId)
    }

    constructor ()
      ensures Valid() && rows == []
    {
      rows := [];
      nextId := 1;
    }

    /**
     * logEvent: inserts one row with a fresh id and returns that id. When the
     * insert fails (insertOk is false) nothing is stored and -1 is returned.
     */
    method LogEvent(e: Event, insertOk: bool) returns (id: int)
      requires Valid()
      modifies this
      ensures Valid()
      ensures insertOk ==> id >= 1 && rows == old(rows) + [Row(id, e)]
      ensures insertOk ==> forall i :: 0 <= i < |old(rows)| ==> old(rows)[i].id < id
      ensures insertOk ==> id == old(nextId) && nextId == old(nextId) + 1
      ensures !insertOk ==> id == -1 && rows == old(rows) && nextId == old(nextId)
    {
      if insertOk {
        id := nextId;
        rows := rows + [Row(id, e)];
        nextId := nextId + 1;
      } else {
        id := -1;
      }
    }

    /** claimEvent: sets the user of event id to u if it is still the system user; true when one row changed. */
    method ClaimEvent(id: int, u: int) returns (ok: bool)
      requires Valid()
      modifies this
      ensures Valid()
      ensures ok <==> Claimable(old(rows), id)
      ensures rows == Claimed(old(rows), id, u) && nextId == old(nextId)
    {
      ClaimCountIsOne(rows, nextId, id);
      ClaimChangesOnlyUser(rows, nextId, id, u);
      var updated := ClaimCount(rows, id);
      rows := Claimed(rows, id, u);
      ok := updated == 1;
    }

    /** getEvent: the event with that id, or none. */
    function GetEvent(id: int): Option<Event>
      reads this
    {
      Find(rows, id)
    }

    /** getLastEvent(offset): the (offset+1)-th latest event, or none. */
    function GetLastEvent(offset: int): Option<Event>
      reads this
    {
      LastEvent(rows, offset)
    }

    /** `SELECT ... FROM events ORDER BY timestamp`: what every statistics scan iterates. */
    function Events(): (r: seq<Event>)
      reads this
      ensures TimeOrdered(r)
    {
      EventsOf(Chronological(rows))
    }
  }
}
