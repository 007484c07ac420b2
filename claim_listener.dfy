/**
 * The claim button under a lock/open notification: the custom id
 * SpaceStatus.createClaimButton gives it, how ClaimListener decodes that id,
 * and what a click does to the event table and to the notification.
 * Discord is reduced to the values the listener reads: the clicker's member
 * record (absent when the guild has none) as a list of role ids, the clicker's
 * id, the notification's embed timestamps and its creation time.
 */
module ClaimListener {
  import opened Wrappers
  import opened Events
  import opened Strings
  import opened Decimal
  import opened JavaMath
  import opened EventStore

  const LOCK_PREFIX: string := "lock-event_"
  const OPEN_PREFIX: string := "open-event_"

  /** createClaimButton: "lock-event_" or "open-event_" followed by the event id in decimal. */
  function ButtonId(eventID: int, isLockEvent: bool): string {
    (if isLockEvent then "lock" else "open") + "-event_" + FromInt(eventID)
  }

  /**
   * replaceAll("(lock-event_|open-event_)", ""): scanning left to right, every
   * occurrence of either prefix is dropped; the text that results is not
   * scanned again.
   */
  function RemovePrefixes(s: string): (r: string)
    ensures |r| <= |s|
  {
    if s == [] then []
    else if StartsWith(s, LOCK_PREFIX) || StartsWith(s, OPEN_PREFIX) then RemovePrefixes(s[|LOCK_PREFIX|..])
    else [s[0]] + RemovePrefixes(s[1..])
  }

  /** What the listener reads off a button id: the lock flag and the parsed event id. */
  datatype Decoded = Decoded(lock: bool, eventID: Result<int>)

  function DecodeButtonId(buttonId: string): Decoded {
    Decoded(StartsWith(buttonId, LOCK_PREFIX), ParseLong(RemovePrefixes(buttonId)))
  }

  /** Text with no 'l' and no 'o' holds neither prefix, so nothing is removed. */
  lemma {:induction false} RemovePrefixesUnchanged(s: string)
    requires forall i :: 0 <= i < |s| ==> s[i] != 'l' && s[i] != 'o'
    ensures RemovePrefixes(s) == s
  {
    if s != [] {
      assert !StartsWith(s, LOCK_PREFIX) && !StartsWith(s, OPEN_PREFIX) by {
        if |s| >= |LOCK_PREFIX| {
          assert s[..|LOCK_PREFIX|][0] == s[0];
        }
      }
      RemovePrefixesUnchanged(s[1..]);
      assert [s[0]] + s[1..] == s;
    }
  }

  /** A leading prefix is dropped and the scan continues after it. */
  lemma RemoveLeadingPrefix(p: string, t: string)
    requires p == LOCK_PREFIX || p == OPEN_PREFIX
    ensures RemovePrefixes(p + t) == RemovePrefixes(t)
  {
    var s := p + t;
    assert s[..|p|] == p;
    assert s[|LOCK_PREFIX|..] == t;
  }

  /** The lock flag of an id that starts with a prefix is whether that prefix is the lock one. */
  lemma LockFlag(p: string, t: string)
    requires p == LOCK_PREFIX || p == OPEN_PREFIX
    ensures StartsWith(p + t, LOCK_PREFIX) <==> p == LOCK_PREFIX
  {
    assert (p + t)[..|LOCK_PREFIX|] == p;
    assert LOCK_PREFIX[0] != OPEN_PREFIX[0];
  }

  /** A decimal number holds no prefix letter, so nothing of it is removed. */
  lemma NumberUnchanged(n: int)
    ensures RemovePrefixes(FromInt(n)) == FromInt(n)
  {
    FromIntChars(n);
    RemovePrefixesUnchanged(FromInt(n));
  }

  /**
   * The button id round trip: decoding createClaimButton's id gives back the
   * lock flag and the event id, for every long id, the failed-insert id -1
   * included.
   */
  lemma DecodeEncode(eventID: int, isLockEvent: bool)
    requires IsLong(eventID)
    ensures DecodeButtonId(ButtonId(eventID, isLockEvent)) == Decoded(isLockEvent, Success(eventID))
  {
    var p := if isLockEvent then LOCK_PREFIX else OPEN_PREFIX;
    var t := FromInt(eventID);
    assert ButtonId(eventID, isLockEvent) == p + t;
    LockFlag(p, t);
    NumberUnchanged(eventID);
    RemoveLeadingPrefix(p, t);
    ParseLongFromInt(eventID);
  }

  lemma DecodeFailedInsert()
    ensures DecodeButtonId(ButtonId(-1, true)) == Decoded(true, Success(-1))
    ensures DecodeButtonId(ButtonId(-1, false)) == Decoded(false, Success(-1))
  {
    DecodeEncode(-1, true);
    DecodeEncode(-1, false);
  }

  /**
   * Both prefixes go wherever they stand: the lock prefix put in front of an
   * open button id, as in "lock-event_open-event_42", decodes as a lock event
   * with the same id.
   */
  lemma DecodeBothPrefixes(eventID: int)
    requires IsLong(eventID)
    ensures DecodeButtonId(LOCK_PREFIX + ButtonId(eventID, false)) == Decoded(true, Success(eventID))
  {
    var t := FromInt(eventID);
    assert ButtonId(eventID, false) == OPEN_PREFIX + t;
    LockFlag(LOCK_PREFIX, ButtonId(eventID, false));
    RemoveLeadingPrefix(LOCK_PREFIX, ButtonId(eventID, false));
    RemoveLeadingPrefix(OPEN_PREFIX, t);
    NumberUnchanged(eventID);
    ParseLongFromInt(eventID);
  }

  /** A remainder that is not a number makes Long.parseLong throw: "open-event_abc" fails. */
  lemma DecodeNonNumeric(b: string)
    requires b == "open-event_abc"
    ensures DecodeButtonId(b) == Decoded(false, Failure(NumberFormat))
  {
    assert b == OPEN_PREFIX + "abc";
    RemoveLeadingPrefix(OPEN_PREFIX, "abc");
    assert RemovePrefixes("abc") == "abc" by {
      assert !StartsWith("abc", LOCK_PREFIX) && !StartsWith("abc", OPEN_PREFIX);
      assert "abc"[1..] == "bc";
      RemovePrefixesUnchanged("bc");
    }
    assert !AllDigits("abc") by { assert !IsDigit("abc"[0]); }
    assert !StartsWith(b, LOCK_PREFIX) by { assert b[0] != LOCK_PREFIX[0]; }
  }

  // ---------------------------------------------------------------------
  // updateMessage: the timestamp the re-rendered notification carries

  /** The timestamp of the last embed that has one. */
  function LastStamp(embedStamps: seq<Option<int>>): Option<int> {
    if embedStamps == [] then None
    else if embedStamps[|embedStamps| - 1].Some? then embedStamps[|embedStamps| - 1]
    else LastStamp(embedStamps[..|embedStamps| - 1])
  }

  /** LastStamp is absent exactly when no embed has a timestamp, and otherwise is the last one present. */
  lemma {:induction false} LastStampSpec(embedStamps: seq<Option<int>>)
    ensures LastStamp(embedStamps).None? <==> forall i :: 0 <= i < |embedStamps| ==> embedStamps[i].None?
    ensures LastStamp(embedStamps).Some? ==>
      exists i :: 0 <= i < |embedStamps| && embedStamps[i] == LastStamp(embedStamps) &&
                  forall j :: i < j < |embedStamps| ==> embedStamps[j].None?
  {
    if embedStamps != [] {
      var n := |embedStamps| - 1;
      if embedStamps[n].Some? {
        assert embedStamps[n] == LastStamp(embedStamps);
      } else {
        var pre := embedStamps[..n];
        LastStampSpec(pre);
        if LastStamp(pre).Some? {
          var i :| 0 <= i < |pre| && pre[i] == LastStamp(pre) && forall j :: i < j < |pre| ==> pre[j].None?;
          assert embedStamps[i] == LastStamp(embedStamps);
          forall j | i < j < |embedStamps| ensures embedStamps[j].None? {
            if j < n { assert embedStamps[j] == pre[j]; }
          }
        } else {
          forall j | 0 <= j < |embedStamps| ensures embedStamps[j].None? {
            if j < n { assert embedStamps[j] == pre[j]; }
          }
        }
      }
    }
  }

  /**
   * The timestamp used: the last embed timestamp, or the message creation time
   * when no embed has one. The loop keeps -1 as its "none yet" value, so a
   * last timestamp of exactly -1 also falls back to the creation time.
   */
  function StampOf(embedStamps: seq<Option<int>>, created: int): int {
    match LastStamp(embedStamps)
    case None => created
    case Some(t) => if t == -1 then created else t
  }

  /** The embed loop of updateMessage. */
  method StampUsed(embedStamps: seq<Option<int>>, created: int) returns (stampUsed: int)
    ensures stampUsed == StampOf(embedStamps, created)
    ensures (forall i :: 0 <= i < |embedStamps| ==> embedStamps[i].None?) ==> stampUsed == created
  {
    var stamp := -1;
    var i := 0;
    while i < |embedStamps|
      invariant 0 <= i <= |embedStamps|
      invariant stamp == (match LastStamp(embedStamps[..i]) case None => -1 case Some(t) => t)
    {
      assert embedStamps[..i + 1][..i] == embedStamps[..i];
      if embedStamps[i].Some? {
        stamp := embedStamps[i].value;
      }
      i := i + 1;
    }
    assert embedStamps[..|embedStamps|] == embedStamps;
    LastStampSpec(embedStamps);
    stampUsed := if stamp == -1 then created else stamp;
  }

  // ---------------------------------------------------------------------
  // onButtonInteraction

  /** The notification as updateMessage redraws it. */
  datatype Render = Render(lock: bool, claimerId: int, stamp: int)

  /** What one click leads to. */
  datatype Outcome =
    | NotKeyHolder               // "Unable to claim event": no claim attempted
    | Threw(error: Error)        // an exception escapes the listener
    | ClaimFailed                // the SQLException reply: no re-render
    | AlreadyClaimed(render: Render)
    | ClaimedNow(render: Render)

  /** A clicker without a member record is let through; a member must hold the key-holder role. */
  predicate MayClaim(member: Option<seq<int>>, keyHolderRole: int) {
    member.None? || keyHolderRole in member.value
  }

  /** A row that exists but cannot be claimed already names a human claimer. */
  lemma UnclaimableNamesClaimer(rows: seq<Row>, id: int)
    requires Find(rows, id).Some? && !Claimable(rows, id)
    ensures Find(rows, id).value.userID != SYSTEM_USER
  {
    var i :| 0 <= i < |rows| && rows[i].id == id && rows[i].event == Find(rows, id).value;
    assert !ClaimableAt(rows, i, id);
  }

  /**
   * onButtonInteraction against the event table. sqlOk false stands for
   * claimEvent throwing SQLException, which leaves the table as it was.
   */
  method OnButtonInteraction(store: Store, member: Option<seq<int>>, keyHolderRole: int,
                             buttonId: string, userId: int, sqlOk: bool,
                             embedStamps: seq<Option<int>>, created: int) returns (out: Outcome)
    requires store.Valid()
    modifies store
    ensures store.Valid() && store.nextId == old(store.nextId)
    ensures !MayClaim(member, keyHolderRole) ==> out == NotKeyHolder && store.rows == old(store.rows)
    ensures MayClaim(member, keyHolderRole) && DecodeButtonId(buttonId).eventID.Failure? ==>
      out == Threw(NumberFormat) && store.rows == old(store.rows)
    ensures MayClaim(member, keyHolderRole) && DecodeButtonId(buttonId).eventID.Success? && !sqlOk ==>
      out == ClaimFailed && store.rows == old(store.rows)
    ensures MayClaim(member, keyHolderRole) && DecodeButtonId(buttonId).eventID.Success? && sqlOk ==>
      var id := DecodeButtonId(buttonId).eventID.value;
      var lock := DecodeButtonId(buttonId).lock;
      var stamp := StampOf(embedStamps, created);
      && store.rows == Claimed(old(store.rows), id, userId)
      && (Claimable(old(store.rows), id) ==> out == ClaimedNow(Render(lock, userId, stamp)))
      && (!Claimable(old(store.rows), id) && Find(old(store.rows), id).Some? ==>
            out == AlreadyClaimed(Render(lock, Find(old(store.rows), id).value.userID, stamp)))
      && (Find(old(store.rows), id).None? ==> out == Threw(NullPointer))
    ensures out.AlreadyClaimed? ==> out.render.claimerId != SYSTEM_USER
  {
    if !MayClaim(member, keyHolderRole) {
      return NotKeyHolder;
    }
    var d := DecodeButtonId(buttonId);
    if d.eventID.Failure? {
      return Threw(NumberFormat);
    }
    var eventID := d.eventID.value;
    if !sqlOk {
      return ClaimFailed;
    }
    ghost var before := store.rows;
    ClaimChangesOnlyUser(before, store.nextId, eventID, userId);
    var ok := store.ClaimEvent(eventID, userId);
    if !ok {
      var e := store.GetEvent(eventID);
      if e.None? {
        return Threw(NullPointer);
      }
      UnclaimableNamesClaimer(before, eventID);
      var stamp := StampUsed(embedStamps, created);
      return AlreadyClaimed(Render(d.lock, e.value.userID, stamp));
    }
    var stamp := StampUsed(embedStamps, created);
    out := ClaimedNow(Render(d.lock, userId, stamp));
  }
}
