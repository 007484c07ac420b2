/** OpStatsUtils.getUserStatistics: OPEN and LOCK counts per user id. */
module UserStats {
  import opened Events

  /** UserStats: opens and locks per user id. */
  datatype PerUser = PerUser(opensByUser: map<int, int>, locksByUser: map<int, int>)

  /** map.put(u, map.getOrDefault(u, 0) + 1). */
  function Bump(m: map<int, int>, u: int): map<int, int> {
    m[u := (if u in m then m[u] else 0) + 1]
  }

  function Step(st: PerUser, e: Event): PerUser {
    if e.userID == SYSTEM_USER then st
    else if e.eventType == OPEN then PerUser(Bump(st.opensByUser, e.userID), st.locksByUser)
    else if e.eventType == LOCK then PerUser(st.opensByUser, Bump(st.locksByUser, e.userID))
    else st
  }

  function ScanAll(events: seq<Event>): PerUser {
    if events == [] then PerUser(map[], map[])
    else Step(ScanAll(events[..|events| - 1]), events[|events| - 1])
  }

  /** The number of events of kind t initiated by user u. */
  function CountBy(events: seq<Event>, t: EventType, u: int): nat {
    if events == [] then 0
    else
      var e := events[|events| - 1];
      CountBy(events[..|events| - 1], t, u) + (if e.eventType == t && e.userID == u then 1 else 0)
  }

  /** A tally map matches CountBy for kind t: the system user never appears, a user appears exactly when they have such an event, with their count. */
  ghost predicate Tallies(m: map<int, int>, events: seq<Event>, t: EventType) {
    SYSTEM_USER !in m &&
    (forall u :: u in m ==> m[u] == CountBy(events, t, u)) &&
    (forall u :: u != SYSTEM_USER && CountBy(events, t, u) > 0 ==> u in m) &&
    (forall u :: u in m ==> m[u] > 0)
  }

  /** The per-user maps count exactly the OPEN and LOCK rows of each user, skipping the system user; override and clear rows count for nobody. */
  lemma {:induction false} CountsPerUser(events: seq<Event>)
    ensures Tallies(ScanAll(events).opensByUser, events, OPEN)
    ensures Tallies(ScanAll(events).locksByUser, events, LOCK)
  {
    if events != [] {
      CountsPerUser(events[..|events| - 1]);
    }
  }

  /** Rows of the system user and rows of the override kinds leave both maps as they are. */
  lemma IgnoredRows(events: seq<Event>, e: Event)
    requires e.userID == SYSTEM_USER || e.eventType !in {OPEN, LOCK}
    ensures ScanAll(events + [e]) == ScanAll(events)
  {
    assert (events + [e])[..|events|] == events;
  }

  /** getUserStatistics's row loop. */
  method GetUserStatistics(events: seq<Event>) returns (r: PerUser)
    ensures r == ScanAll(events)
  {
    var opensByUser: map<int, int> := map[];
    var locksByUser: map<int, int> := map[];
    var i := 0;
    while i < |events|
      invariant 0 <= i <= |events|
      invariant ScanAll(events[..i]) == PerUser(opensByUser, locksByUser)
    {
      assert events[..i + 1][..i] == events[..i];
      var userId := events[i].userID;
      if userId != -1 {
        if events[i].eventType == OPEN {
          opensByUser := opensByUser[userId := (if userId in opensByUser then opensByUser[userId] else 0) + 1];
        } else if events[i].eventType == LOCK {
          locksByUser := locksByUser[userId := (if userId in locksByUser then locksByUser[userId] else 0) + 1];
        }
      }
      i := i + 1;
    }
    assert events[..|events|] == events;
    r := PerUser(opensByUser, locksByUser);
  }
}
