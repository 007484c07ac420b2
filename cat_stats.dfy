/**
 * CatStatsUtils: the message_reacts side table, which keeps for each bot
 * message the comma-joined decimal ids of the users who reacted with the cat
 * emoji, and the two rankings read from it.
 */
module CatStats {
  import opened Wrappers
  import opened JavaMath
  import opened Strings
  import opened Decimal
  import opened Sorting

  /** The placeholder stored for a message nobody has reacted to yet. */
  const NO_USERS: string := "NO_USERS"

  // ---------------------------------------------------------------------
  // packList / extractList

  /** String.valueOf of every id. */
  function Texts(ids: seq<int>): (r: seq<string>)
    ensures |r| == |ids| && forall i :: 0 <= i < |ids| ==> r[i] == FromInt(ids[i])
  {
    if ids == [] then [] else [FromInt(ids[0])] + Texts(ids[1..])
  }

  /** packList: the ids in decimal joined by "," with no spaces; no ids give "". */
  function PackList(ids: seq<int>): string {
    Join(Texts(ids), ',')
  }

  /** The pieces that are not blank, in order. */
  function NonBlank(pieces: seq<string>): (r: seq<string>)
    ensures forall i :: 0 <= i < |r| ==> !IsBlank(r[i])
  {
    if pieces == [] then []
    else (if IsBlank(pieces[0]) then [] else [pieces[0]]) + NonBlank(pieces[1..])
  }

  /** The isBlank filter distributes over concatenation. */
  lemma {:induction false} NonBlankConcat(a: seq<string>, b: seq<string>)
    ensures NonBlank(a + b) == NonBlank(a) + NonBlank(b)
  {
    if a != [] {
      assert (a + b)[0] == a[0] && (a + b)[1..] == a[1..] + b;
      NonBlankConcat(a[1..], b);
      var head := if IsBlank(a[0]) then [] else [a[0]];
      assert NonBlank(a + b) == head + (NonBlank(a[1..]) + NonBlank(b));
      assert NonBlank(a) == head + NonBlank(a[1..]);
    } else {
      assert a + b == b;
    }
  }

  /** Empty pieces are all filtered out. */
  lemma {:induction false} NonBlankEmpties(pieces: seq<string>)
    requires forall i :: 0 <= i < |pieces| ==> pieces[i] == []
    ensures NonBlank(pieces) == []
  {
    if pieces != [] {
      NonBlankEmpties(pieces[1..]);
    }
  }

  /**
   * The trailing empty pieces String.split drops are blank, so the filter at
   * the end of extractList sees the same pieces with or without them.
   */
  lemma StringSplitNonBlank(s: string, sep: char)
    ensures NonBlank(StringSplit(s, sep)) == NonBlank(Split(s, sep))
  {
    StringSplitPieces(s, sep);
    var r, all := StringSplit(s, sep), Split(s, sep);
    assert all == r + all[|r|..];
    NonBlankConcat(r, all[|r|..]);
    NonBlankEmpties(all[|r|..]);
  }

  /** Long.parseLong over every piece; the first piece that is not a long throws NumberFormatException. */
  function ParseAll(pieces: seq<string>): (r: Result<seq<int>>)
    ensures r.Success? <==> forall i :: 0 <= i < |pieces| ==> ParseLong(pieces[i]).Success?
    ensures r.Success? ==> |r.value| == |pieces| && forall i :: 0 <= i < |pieces| ==> ParseLong(pieces[i]) == Success(r.value[i])
    ensures r.Failure? ==> r.error == NumberFormat
  {
    if pieces == [] then Success([])
    else
      match ParseLong(pieces[0])
      case Failure(e) => Failure(e)
      case Success(v) =>
        match ParseAll(pieces[1..])
        case Failure(e) =>
          assert forall i :: 0 <= i < |pieces| - 1 ==> pieces[1..][i] == pieces[i + 1];
          Failure(e)
        case Success(rest) =>
          assert forall i :: 1 <= i < |pieces| ==> pieces[i] == pieces[1..][i - 1];
          Success([v] + rest)
  }

  /**
   * extractList: no ids for a missing value, a blank one, or one that mentions
   * NO_USERS anywhere; otherwise the non-blank comma-separated pieces, each
   * parsed as a long.
   */
  function ExtractList(value: Option<string>): (r: Result<seq<int>>)
    ensures value.None? ==> r == Success([])
    ensures value.Some? && (IsBlank(value.value) || Contains(value.value, NO_USERS)) ==> r == Success([])
    ensures r.Failure? ==> r.error == NumberFormat
  {
    if value.None? || IsBlank(value.value) || Contains(value.value, NO_USERS) then Success([])
    else ParseAll(NonBlank(StringSplit(value.value, ',')))
  }

  /** A value with a non-blank piece that is not a long, such as one with spaces around a number, throws NumberFormatException. */
  lemma BadPieceThrows(v: string, i: int)
    requires !IsBlank(v) && !Contains(v, NO_USERS)
    requires 0 <= i < |NonBlank(StringSplit(v, ','))| && ParseLong(NonBlank(StringSplit(v, ','))[i]).Failure?
    ensures ExtractList(Some(v)) == Failure(NumberFormat)
  {
  }

  /** " 7" is not blank but is no long: surrounding spaces are not trimmed. */
  lemma SpacedIdThrows(v: string)
    requires v == " 7"
    ensures ExtractList(Some(v)) == Failure(NumberFormat)
  {
    assert v[1] == '7' && !IsWhitespace(v[1]);
    assert !Contains(v, NO_USERS) by {
      AbsentFirstChar(v, NO_USERS);
    }
    assert StringSplit(v, ',') == [v];
    assert NonBlank([v]) == [v];
  }

  /** A string that lacks the first character of t does not contain t. */
  lemma {:induction false} AbsentFirstChar(s: string, t: string)
    requires t != [] && t[0] !in s
    ensures !Contains(s, t)
  {
    if |t| <= |s| {
      assert s[..|t|][0] == s[0];
    }
    if s != [] {
      AbsentFirstChar(s[1..], t);
    }
  }

  /** The characters of packList: digits, minus signs and commas only. */
  lemma PackListChars(ids: seq<int>, c: char)
    requires c in PackList(ids)
    ensures IsDigit(c) || c == '-' || c == ','
  {
    JoinChars(Texts(ids), ',', c);
    if c != ',' {
      var i :| 0 <= i < |Texts(ids)| && c in Texts(ids)[i];
      FromIntChars(ids[i]);
    }
  }

  /** The text of a number is never blank and has no comma. */
  lemma TextShape(n: int)
    ensures !IsBlank(FromInt(n)) && ',' !in FromInt(n)
  {
    FromIntChars(n);
    assert !IsWhitespace(FromInt(n)[0]);
  }

  lemma {:induction false} NonBlankTexts(ids: seq<int>)
    ensures NonBlank(Texts(ids)) == Texts(ids)
  {
    if ids != [] {
      TextShape(ids[0]);
      NonBlankTexts(ids[1..]);
    }
  }

  lemma {:induction false} ParseTexts(ids: seq<int>)
    requires forall i :: 0 <= i < |ids| ==> IsLong(ids[i])
    ensures ParseAll(Texts(ids)) == Success(ids)
  {
    if ids != [] {
      var t := Texts(ids);
      assert t[0] == FromInt(ids[0]) && t[1..] == Texts(ids[1..]);
      ParseLongFromInt(ids[0]);
      ParseTexts(ids[1..]);
      assert [ids[0]] + ids[1..] == ids;
    }
  }

  /** Round trip: extractList(packList(ids)) gives back every long id, in order and with duplicates. */
  lemma ExtractPack(ids: seq<int>)
    requires forall i :: 0 <= i < |ids| ==> IsLong(ids[i])
    ensures ExtractList(Some(PackList(ids))) == Success(ids)
  {
    var p := PackList(ids);
    if ids == [] {
      assert p == "";
    } else {
      var t := Texts(ids);
      TextShape(ids[0]);
      assert !IsBlank(p) by {
        JoinStartsWithFirst(t, ',');
        assert p[0] == t[0][0];
        assert !IsWhitespace(t[0][0]);
      }
      assert !Contains(p, NO_USERS) by {
        if 'N' in p {
          PackListChars(ids, 'N');
        }
        AbsentFirstChar(p, NO_USERS);
      }
      forall i | 0 <= i < |t| ensures ',' !in t[i] {
        TextShape(ids[i]);
      }
      SplitJoin(t, ',');
      StringSplitNonBlank(p, ',');
      NonBlankTexts(ids);
      ParseTexts(ids);
    }
  }

  /** The joined text starts with the first piece. */
  lemma JoinStartsWithFirst(parts: seq<string>, sep: char)
    requires parts != [] && parts[0] != []
    ensures Join(parts, sep) != [] && Join(parts, sep)[0] == parts[0][0]
  {
  }

  // ---------------------------------------------------------------------
  // The message_reacts table

  /** A row of message_reacts; message_id is the upsert's conflict key. */
  datatype ReactRow = ReactRow(messageId: int, reactedUsers: string)

  /** No two rows share a message id. */
  predicate DistinctIds(rows: seq<ReactRow>) {
    forall i, j :: 0 <= i < j < |rows| ==> rows[i].messageId != rows[j].messageId
  }

  /** The stored value of a message's row, if it has one. */
  function Lookup(rows: seq<ReactRow>, id: int): (r: Option<string>)
    ensures r.None? <==> forall i :: 0 <= i < |rows| ==> rows[i].messageId != id
  {
    if rows == [] then None
    else if rows[|rows| - 1].messageId == id then Some(rows[|rows| - 1].reactedUsers)
    else
      assert forall i :: 0 <= i < |rows| - 1 ==> rows[..|rows| - 1][i] == rows[i];
      Lookup(rows[..|rows| - 1], id)
  }

  /**
   * INSERT ... ON CONFLICT(message_id) DO UPDATE: the row of that message
   * takes the new value where it stands, or a new row is added at the end.
   */
  function Upserted(rows: seq<ReactRow>, id: int, value: string): (r: seq<ReactRow>)
    requires DistinctIds(rows)
    ensures DistinctIds(r)
    ensures Lookup(r, id) == Some(value)
    ensures forall other :: other != id ==> Lookup(r, other) == Lookup(rows, other)
    ensures |r| == |rows| + (if Lookup(rows, id).None? then 1 else 0)
  {
    if Lookup(rows, id).None? then
      AppendRow(rows, id, value);
      rows + [ReactRow(id, value)]
    else
      var k :| 0 <= k < |rows| && rows[k].messageId == id;
      UpdateLookup(rows, k, value);
      UpdateKeepsDistinct(rows, k, value);
      rows[k := ReactRow(id, value)]
  }

  /** A new message's row goes at the end. */
  lemma AppendRow(rows: seq<ReactRow>, id: int, value: string)
    requires DistinctIds(rows) && Lookup(rows, id).None?
    ensures var r := rows + [ReactRow(id, value)];
      DistinctIds(r) && Lookup(r, id) == Some(value) &&
      forall other :: other != id ==> Lookup(r, other) == Lookup(rows, other)
  {
    var r := rows + [ReactRow(id, value)];
    assert r[..|rows|] == rows;
  }

  /** Rewriting a row's value keeps the ids distinct. */
  lemma UpdateKeepsDistinct(rows: seq<ReactRow>, k: int, value: string)
    requires DistinctIds(rows) && 0 <= k < |rows|
    ensures DistinctIds(rows[k := ReactRow(rows[k].messageId, value)])
  {
  }

  lemma {:induction false} UpdateLookup(rows: seq<ReactRow>, k: int, value: string)
    requires DistinctIds(rows) && 0 <= k < |rows|
    ensures var r := rows[k := ReactRow(rows[k].messageId, value)];
      Lookup(r, rows[k].messageId) == Some(value) &&
      forall other :: other != rows[k].messageId ==> Lookup(r, other) == Lookup(rows, other)
  {
    var r := rows[k := ReactRow(rows[k].messageId, value)];
    if k < |rows| - 1 {
      UpdateLookup(rows[..|rows| - 1], k, value);
      assert r[..|r| - 1] == rows[..|rows| - 1][k := ReactRow(rows[k].messageId, value)];
    } else {
      assert r[..|r| - 1] == rows[..|rows| - 1];
    }
  }

  /** The reaction table: its rows in scan order. */
  class ReactionTable {
    var rows: seq<ReactRow>

    ghost predicate Valid()
      reads this
    {
      DistinctIds(rows)
    }

    constructor()
      ensures Valid() && rows == []
    {
      rows := [];
    }

    /** The reacted_users value stored for a message, if any. */
    function Get(id: int): Option<string>
      reads this
    {
      Lookup(rows, id)
    }

    /** storeMessage: upserts NO_USERS; a failed write (ok false) is logged and changes nothing. */
    method StoreMessage(messageID: int, ok: bool)
      requires Valid()
      modifies this
      ensures Valid()
      ensures ok ==> rows == Upserted(old(rows), messageID, NO_USERS)
      ensures !ok ==> rows == old(rows)
    {
      if ok {
        rows := Upserted(rows, messageID, NO_USERS);
      }
    }

    /** updateReactions: upserts packList(users); a failed write (ok false) is logged and changes nothing. */
    method UpdateReactions(messageID: int, users: seq<int>, ok: bool)
      requires Valid()
      modifies this
      ensures Valid()
      ensures ok ==> rows == Upserted(old(rows), messageID, PackList(users))
      ensures !ok ==> rows == old(rows)
    {
      if ok {
        rows := Upserted(rows, messageID, PackList(users));
      }
    }
  }

  /** A freshly stored message reads back with no reactors, and no other message changes. */
  lemma StoredMessageHasNoUsers(rows: seq<ReactRow>, id: int)
    requires DistinctIds(rows)
    ensures ExtractList(Lookup(Upserted(rows, id, NO_USERS), id)) == Success([])
    ensures forall other :: other != id ==> Lookup(Upserted(rows, id, NO_USERS), other) == Lookup(rows, other)
  {
    assert StartsWith(NO_USERS, NO_USERS);
  }

  /** After updateReactions a message reads back exactly its reactors; no other message changes. */
  lemma UpdatedReactionsReadBack(rows: seq<ReactRow>, id: int, users: seq<int>)
    requires DistinctIds(rows)
    requires forall i :: 0 <= i < |users| ==> IsLong(users[i])
    ensures ExtractList(Lookup(Upserted(rows, id, PackList(users)), id)) == Success(users)
    ensures forall other :: other != id ==> Lookup(Upserted(rows, id, PackList(users)), other) == Lookup(rows, other)
  {
    ExtractPack(users);
  }

  // ---------------------------------------------------------------------
  // getTopMessages

  /** MessageCatStat. */
  datatype MessageCatStat = MessageCatStat(messageId: int, count: int)

  /**
   * A row loop that stops at the first exception: each element's result in
   * order, or the error of the first element that fails.
   */
  function Collect<A, B>(xs: seq<A>, f: A -> Result<B>): Result<seq<B>> {
    if xs == [] then Success([])
    else
      match Collect(xs[..|xs| - 1], f)
      case Failure(e) => Failure(e)
      case Success(ys) =>
        match f(xs[|xs| - 1])
        case Failure(e) => Failure(e)
        case Success(y) => Success(ys + [y])
  }

  /** Collect succeeds exactly when every element does, and then holds every element's result; a failure is some element's. */
  lemma {:induction false} CollectSpec<A, B>(xs: seq<A>, f: A -> Result<B>)
    ensures var r := Collect(xs, f);
      (r.Success? ==> |r.value| == |xs| && forall i :: 0 <= i < |xs| ==> f(xs[i]) == Success(r.value[i])) &&
      (r.Failure? <==> exists i :: 0 <= i < |xs| && f(xs[i]).Failure?) &&
      (r.Failure? ==> exists i :: 0 <= i < |xs| && f(xs[i]) == Failure(r.error))
  {
    if xs != [] {
      var pre := xs[..|xs| - 1];
      CollectSpec(pre, f);
      assert forall i :: 0 <= i < |pre| ==> pre[i] == xs[i];
      var last := f(xs[|xs| - 1]);
      match Collect(pre, f)
      case Failure(e) =>
        var i :| 0 <= i < |pre| && f(pre[i]) == Failure(e);
        assert f(xs[i]) == Failure(e);
      case Success(ys) =>
        if last.Success? {
          var r := ys + [last.value];
          assert Collect(xs, f) == Success(r);
          assert forall i :: 0 <= i < |pre| ==> r[i] == ys[i];
        }
    }
  }

  /** One more element that succeeds extends the results by its result. */
  lemma CollectSnoc<A, B>(xs: seq<A>, i: nat, f: A -> Result<B>, ys: seq<B>)
    requires i < |xs| && Collect(xs[..i], f) == Success(ys) && f(xs[i]).Success?
    ensures Collect(xs[..i + 1], f) == Success(ys + [f(xs[i]).value])
  {
    assert xs[..i + 1][..i] == xs[..i];
  }

  /** The user list of one row. */
  function RowUsers(row: ReactRow): Result<seq<int>> {
    ExtractList(Some(row.reactedUsers))
  }

  /** The entry of one row: its message id and its number of reactors. */
  function RowStat(row: ReactRow): Result<MessageCatStat> {
    match RowUsers(row)
    case Failure(e) => Failure(e)
    case Success(users) => Success(MessageCatStat(row.messageId, |users|))
  }

  /** One entry per row with its number of reactors; the first row that does not parse throws. */
  function MessageStats(rows: seq<ReactRow>): Result<seq<MessageCatStat>> {
    Collect(rows, RowStat)
  }

  /**
   * The row loop of getTopMessages succeeds exactly when every row parses,
   * and then gives each row's message id with its number of reactors; the
   * failure is NumberFormatException.
   */
  lemma MessageStatsSpec(rows: seq<ReactRow>)
    ensures var r := MessageStats(rows);
      (r.Success? ==> |r.value| == |rows| && forall i :: 0 <= i < |rows| ==>
        r.value[i].messageId == rows[i].messageId &&
        ExtractList(Some(rows[i].reactedUsers)).Success? &&
        r.value[i].count == |ExtractList(Some(rows[i].reactedUsers)).value|) &&
      (r.Failure? <==> exists i :: 0 <= i < |rows| && ExtractList(Some(rows[i].reactedUsers)).Failure?) &&
      (r.Failure? ==> r.error == NumberFormat)
  {
    CollectSpec(rows, RowStat);
    var r := MessageStats(rows);
    if r.Failure? {
      var i :| 0 <= i < |rows| && RowStat(rows[i]) == Failure(r.error);
      assert RowUsers(rows[i]).Failure?;
    }
  }

  /** Descending count as an ascending key. */
  function ByCountDesc(s: MessageCatStat): int { -s.count }

  /** Stream.limit(n) for n >= 0. */
  function Take<T>(s: seq<T>, n: nat): (r: seq<T>)
    ensures |r| == if n < |s| then n else |s|
    ensures r == s[..|r|]
  {
    if n < |s| then s[..n] else s
  }

  /** The entries sorted by count, largest first and stably, cut to limit. */
  function TopOf(stats: seq<MessageCatStat>, limit: nat): seq<MessageCatStat> {
    Take(SortBy(stats, ByCountDesc), limit)
  }

  /**
   * getTopMessages: after the row loop, the entries are sorted and cut to
   * limit; a negative limit throws IllegalArgumentException.
   */
  function TopMessages(rows: seq<ReactRow>, limit: int): Result<seq<MessageCatStat>> {
    match MessageStats(rows)
    case Failure(e) => Failure(e)
    case Success(stats) =>
      if limit < 0 then Failure(IllegalArgument)
      else Success(TopOf(stats, limit))
  }

  /** The elements of a prefix that have key k form a prefix of those of the whole sequence. */
  lemma {:induction false} WithKeyPrefix<T>(s: seq<T>, key: T -> int, k: int, n: nat)
    requires n <= |s|
    ensures WithKey(s[..n], key, k) <= WithKey(s, key, k)
  {
    if n > 0 {
      assert s[..n][1..] == s[1..][..n - 1];
      WithKeyPrefix(s[1..], key, k, n - 1);
    }
  }

  /** Whatever a prefix of a sorted sequence leaves out has a key no smaller than the prefix's last. */
  lemma PrefixOfSorted<T>(full: seq<T>, key: T -> int, n: nat)
    requires SortedBy(full, key) && 0 < n <= |full|
    ensures forall x :: multiset(full[..n])[x] < multiset(full)[x] ==> key(full[n - 1]) <= key(x)
  {
    assert full == full[..n] + full[n..];
    forall x | multiset(full[..n])[x] < multiset(full)[x] ensures key(full[n - 1]) <= key(x) {
      assert x in multiset(full[n..]);
      var j :| 0 <= j < |full[n..]| && full[n..][j] == x;
      assert full[n + j] == x;
    }
  }

  /** A prefix holds no element more often than the whole. */
  lemma PrefixMultiset<T>(full: seq<T>, n: nat)
    requires n <= |full|
    ensures multiset(full[..n]) <= multiset(full)
  {
    assert full == full[..n] + full[n..];
  }

  /**
   * The top messages: as many as limit allows, counts never increasing,
   * drawn from the rows' entries, no left-out entry having a larger count than
   * the last one kept, and among equal counts the earlier rows first.
   */
  lemma TopOfSpec(stats: seq<MessageCatStat>, limit: nat)
    ensures var r := TopOf(stats, limit);
      |r| == (if limit < |stats| then limit else |stats|) &&
      (forall i, j :: 0 <= i < j < |r| ==> r[i].count >= r[j].count) &&
      multiset(r) <= multiset(stats) &&
      (forall x: MessageCatStat :: multiset(r)[x] < multiset(stats)[x] && |r| > 0 ==> x.count <= r[|r| - 1].count) &&
      (forall k :: WithKey(r, ByCountDesc, k) <= WithKey(stats, ByCountDesc, k))
  {
    var full := SortBy(stats, ByCountDesc);
    var r := TopOf(stats, limit);
    var n := |r|;
    assert r == full[..n];
    PrefixMultiset(full, n);
    PrefixDescending(full, n);
    if n > 0 {
      PrefixOfSorted(full, ByCountDesc, n);
      PrefixLeftOut(stats, full, n);
    }
    WithKeysPrefix(stats, full, n);
  }

  /** A prefix of entries sorted by descending count has descending counts. */
  lemma PrefixDescending(full: seq<MessageCatStat>, n: nat)
    requires SortedBy(full, ByCountDesc) && n <= |full|
    ensures forall i, j :: 0 <= i < j < n ==> full[..n][i].count >= full[..n][j].count
  {
    forall i, j | 0 <= i < j < n ensures full[..n][i].count >= full[..n][j].count {
      assert ByCountDesc(full[i]) <= ByCountDesc(full[j]);
    }
  }

  /** An entry a prefix leaves out counts no more than the prefix's last. */
  lemma PrefixLeftOut(stats: seq<MessageCatStat>, full: seq<MessageCatStat>, n: nat)
    requires multiset(full) == multiset(stats) && 0 < n <= |full|
    requires forall x :: multiset(full[..n])[x] < multiset(full)[x] ==> ByCountDesc(full[n - 1]) <= ByCountDesc(x)
    ensures forall x: MessageCatStat :: multiset(full[..n])[x] < multiset(stats)[x] ==> x.count <= full[..n][n - 1].count
  {
  }

  /** Among equal counts, a prefix of the stable sort keeps the input's order. */
  lemma WithKeysPrefix(stats: seq<MessageCatStat>, full: seq<MessageCatStat>, n: nat)
    requires n <= |full| && forall k :: WithKey(full, ByCountDesc, k) == WithKey(stats, ByCountDesc, k)
    ensures forall k :: WithKey(full[..n], ByCountDesc, k) <= WithKey(stats, ByCountDesc, k)
  {
    forall k ensures WithKey(full[..n], ByCountDesc, k) <= WithKey(stats, ByCountDesc, k) {
      WithKeyPrefix(full, ByCountDesc, k, n);
    }
  }

  /** getTopMessages: the row loop, then the sort and the limit. */
  method GetTopMessages(rows: seq<ReactRow>, limit: int) returns (r: Result<seq<MessageCatStat>>)
    ensures r == TopMessages(rows, limit)
  {
    var stats: seq<MessageCatStat> := [];
    var i := 0;
    while i < |rows|
      invariant 0 <= i <= |rows|
      invariant MessageStats(rows[..i]) == Success(stats)
    {
      var users := ExtractList(Some(rows[i].reactedUsers));
      if users.Failure? {
        MessageStatsFailure(rows, i);
        return Failure(users.error);
      }
      CollectSnoc(rows, i, RowStat, stats);
      stats := stats + [MessageCatStat(rows[i].messageId, |users.value|)];
      i := i + 1;
    }
    assert rows[..|rows|] == rows;
    if limit < 0 {
      return Failure(IllegalArgument);
    }
    r := Success(TopOf(stats, limit));
  }

  /** A row that does not parse makes the whole scan throw NumberFormatException. */
  lemma MessageStatsFailure(rows: seq<ReactRow>, i: nat)
    requires i < |rows| && ExtractList(Some(rows[i].reactedUsers)).Failure?
    ensures MessageStats(rows) == Failure(NumberFormat)
  {
    MessageStatsSpec(rows);
  }

  // ---------------------------------------------------------------------
  // getTopUsers

  /** The user lists of every row; the first row that does not parse throws. */
  function UserLists(rows: seq<ReactRow>): Result<seq<seq<int>>> {
    Collect(rows, RowUsers)
  }

  /** The row scan of getTopUsers succeeds exactly when every row parses, and then holds each row's list. */
  lemma UserListsSpec(rows: seq<ReactRow>)
    ensures var r := UserLists(rows);
      (r.Success? ==> |r.value| == |rows| && forall i :: 0 <= i < |rows| ==>
        ExtractList(Some(rows[i].reactedUsers)) == Success(r.value[i])) &&
      (r.Failure? <==> exists i :: 0 <= i < |rows| && ExtractList(Some(rows[i].reactedUsers)).Failure?)
  {
    CollectSpec(rows, RowUsers);
  }

  /** All the lists one after another. */
  function Flatten(lists: seq<seq<int>>): seq<int> {
    if lists == [] then [] else Flatten(lists[..|lists| - 1]) + lists[|lists| - 1]
  }

  /** counts.merge(user, 1, Integer::sum) over every user in order. */
  function Merge(counts: map<int, int>, users: seq<int>): map<int, int> {
    if users == [] then counts
    else
      var m := Merge(counts, users[..|users| - 1]);
      var u := users[|users| - 1];
      m[u := if u in m then m[u] + 1 else 1]
  }

  /** Merging counts occurrences: a user's total goes up by its number of occurrences in users. */
  lemma {:induction false} MergeCounts(counts: map<int, int>, users: seq<int>)
    ensures forall u :: u in Merge(counts, users) <==> u in counts || u in multiset(users)
    ensures forall u :: u in Merge(counts, users) ==>
      Merge(counts, users)[u] == (if u in counts then counts[u] else 0) + multiset(users)[u]
  {
    if users != [] {
      var pre := users[..|users| - 1];
      MergeCounts(counts, pre);
      assert users == pre + [users[|users| - 1]];
    }
  }

  /** Each user of all with its number of occurrences: the counts getTopUsers builds. */
  function Tally(all: seq<int>): (t: map<int, int>)
    ensures forall u :: u in t <==> u in multiset(all)
    ensures forall u :: u in t ==> t[u] == multiset(all)[u]
  {
    map u | u in multiset(all) :: multiset(all)[u]
  }

  /** UserCount: a map entry of getTopUsers. */
  datatype UserCount = UserCount(user: int, count: int)

  /** As many entries as limit allows, out of one per user. */
  predicate TopSize(r: seq<UserCount>, tally: map<int, int>, limit: int) {
    |r| == (if limit < |tally.Keys| then limit else |tally.Keys|)
  }

  /** Every entry carries its user's count. */
  predicate CountsRight(r: seq<UserCount>, tally: map<int, int>) {
    forall i :: 0 <= i < |r| ==> r[i].user in tally && r[i].count == tally[r[i].user]
  }

  /** No user twice. */
  predicate UsersDistinct(r: seq<UserCount>) {
    forall i, j :: 0 <= i < j < |r| ==> r[i].user != r[j].user
  }

  /** Counts never increase. */
  predicate CountsDescending(r: seq<UserCount>) {
    forall i, j :: 0 <= i < j < |r| ==> r[i].count >= r[j].count
  }

  /** A user left out counts no more than the last entry kept. */
  predicate NoneHigherLeftOut(r: seq<UserCount>, tally: map<int, int>) {
    forall u :: u in tally && |r| > 0 && (forall i :: 0 <= i < |r| ==> r[i].user != u) ==> tally[u] <= r[|r| - 1].count
  }

  /** counts.entrySet().stream().sorted(comparingByValue().reversed()).limit(limit), for any HashMap order. */
  predicate IsTopUsers(r: seq<UserCount>, tally: map<int, int>, limit: int) {
    TopSize(r, tally, limit) && CountsRight(r, tally) && UsersDistinct(r) &&
    CountsDescending(r) && NoneHigherLeftOut(r, tally)
  }

  /** Descending count as an ascending key. */
  function ByUserCountDesc(e: UserCount): int { -e.count }

  /** No user twice. */
  predicate NoDuplicates(s: seq<int>) {
    forall i, j :: 0 <= i < j < |s| ==> s[i] != s[j]
  }

  lemma {:induction false} DistinctSize(s: seq<int>)
    requires NoDuplicates(s)
    ensures |set u | u in s| == |s|
  {
    if s != [] {
      var pre := s[..|s| - 1];
      DistinctSize(pre);
      assert (set u | u in s) == (set u | u in pre) + {s[|s| - 1]};
      assert s[|s| - 1] !in pre;
    }
  }

  /** The entries of every user, listed without repetition, each with its count. */
  ghost predicate EntriesOf(entries: seq<UserCount>, order: seq<int>, tally: map<int, int>) {
    NoDuplicates(order) && (forall u :: u in order <==> u in tally) &&
    |entries| == |order| && forall i :: 0 <= i < |order| ==> entries[i] == UserCount(order[i], tally[order[i]])
  }

  /** One entry per user: as many entries as users. */
  lemma EntriesSize(entries: seq<UserCount>, order: seq<int>, tally: map<int, int>)
    requires EntriesOf(entries, order, tally)
    ensures |tally.Keys| == |entries|
  {
    DistinctSize(order);
    var d := set u | u in order;
    assert forall u :: u in d <==> u in tally.Keys;
    assert d == tally.Keys;
  }

  /** The sorted entries of every user, cut to limit, are a valid top-users answer. */
  lemma TopOfEntries(tally: map<int, int>, order: seq<int>, entries: seq<UserCount>, limit: nat)
    requires EntriesOf(entries, order, tally)
    ensures IsTopUsers(Take(SortBy(entries, ByUserCountDesc), limit), tally, limit)
  {
    var full := SortBy(entries, ByUserCountDesc);
    EntriesSize(entries, order, tally);
    var n := |Take(full, limit)|;
    assert Take(full, limit) == full[..n];
    PrefixTop(tally, order, entries, full, n);
  }

  /** Any prefix of the sorted entries carries right counts, distinct users, descending counts, and leaves out no higher count. */
  lemma PrefixTop(tally: map<int, int>, order: seq<int>, entries: seq<UserCount>, full: seq<UserCount>, n: nat)
    requires EntriesOf(entries, order, tally)
    requires multiset(full) == multiset(entries) && SortedBy(full, ByUserCountDesc) && n <= |full|
    ensures CountsRight(full[..n], tally) && UsersDistinct(full[..n])
    ensures CountsDescending(full[..n]) && NoneHigherLeftOut(full[..n], tally)
  {
    var r := full[..n];
    FromEntries(tally, order, entries, full);
    assert CountsRight(r, tally);
    forall i, j | 0 <= i < j < n ensures r[i].user != r[j].user {
      EntriesDistinct(tally, order, entries, full, i, j);
    }
    forall i, j | 0 <= i < j < n ensures r[i].count >= r[j].count {
      assert ByUserCountDesc(full[i]) <= ByUserCountDesc(full[j]);
    }
    if n > 0 {
      PrefixOfSorted(full, ByUserCountDesc, n);
      LeftOut(tally, order, entries, full, n);
    }
  }

  /** Every sorted entry is some user's entry. */
  lemma FromEntries(tally: map<int, int>, order: seq<int>, entries: seq<UserCount>, full: seq<UserCount>)
    requires EntriesOf(entries, order, tally)
    requires multiset(full) == multiset(entries)
    ensures CountsRight(full, tally)
  {
    forall i | 0 <= i < |full| ensures full[i].user in tally && full[i].count == tally[full[i].user] {
      assert full[i] in multiset(entries);
      var k :| 0 <= k < |entries| && entries[k] == full[i];
    }
  }

  /** A user missing from the first n sorted entries counts no more than the n-th. */
  lemma LeftOut(tally: map<int, int>, order: seq<int>, entries: seq<UserCount>, full: seq<UserCount>, n: nat)
    requires EntriesOf(entries, order, tally)
    requires multiset(full) == multiset(entries) && 0 < n <= |full|
    requires forall x :: multiset(full[..n])[x] < multiset(full)[x] ==> ByUserCountDesc(full[n - 1]) <= ByUserCountDesc(x)
    ensures NoneHigherLeftOut(full[..n], tally)
  {
    forall u | u in tally && (forall i :: 0 <= i < n ==> full[..n][i].user != u)
      ensures tally[u] <= full[..n][n - 1].count
    {
      var k :| 0 <= k < |order| && order[k] == u;
      var e := entries[k];
      assert e in multiset(entries);
      assert e !in multiset(full[..n]);
    }
  }

  /** A value at two positions occurs twice. */
  lemma Twice<T>(s: seq<T>, i: int, j: int)
    requires 0 <= i < j < |s|
    ensures s[i] == s[j] ==> multiset(s)[s[i]] >= 2
  {
    assert s == s[..j] + [s[j]] + s[j + 1..];
    assert s[..j][i] == s[i];
  }

  /** A permutation of entries with distinct users has distinct users. */
  lemma EntriesDistinct(tally: map<int, int>, order: seq<int>, entries: seq<UserCount>, full: seq<UserCount>, i: int, j: int)
    requires EntriesOf(entries, order, tally)
    requires multiset(full) == multiset(entries) && 0 <= i < j < |full|
    ensures full[i].user != full[j].user
  {
    assert full[i] in multiset(entries) && full[j] in multiset(entries);
    var a :| 0 <= a < |entries| && entries[a] == full[i];
    var b :| 0 <= b < |entries| && entries[b] == full[j];
    EntryOnce(tally, order, entries, a);
    Twice(full, i, j);
  }

  /** Each entry occurs once. */
  lemma EntryOnce(tally: map<int, int>, order: seq<int>, entries: seq<UserCount>, a: int)
    requires EntriesOf(entries, order, tally)
    requires 0 <= a < |entries|
    ensures multiset(entries)[entries[a]] == 1
  {
    assert entries == entries[..a] + [entries[a]] + entries[a + 1..];
    assert forall k :: 0 <= k < a ==> entries[..a][k].user != entries[a].user;
  }

  /** The inner loop of getTopUsers: merge one row's users, noting each first-seen user. */
  method MergeRow(counts0: map<int, int>, order0: seq<int>, users: seq<int>) returns (counts: map<int, int>, order: seq<int>)
    requires NoDuplicates(order0) && forall u :: u in order0 <==> u in counts0
    ensures counts == Merge(counts0, users)
    ensures NoDuplicates(order) && forall u :: u in order <==> u in counts
  {
    counts, order := counts0, order0;
    var j := 0;
    while j < |users|
      invariant 0 <= j <= |users|
      invariant counts == Merge(counts0, users[..j])
      invariant NoDuplicates(order) && forall u :: u in order <==> u in counts
    {
      var user := users[j];
      assert users[..j + 1][..j] == users[..j];
      if user in counts {
        counts := counts[user := counts[user] + 1];
      } else {
        counts := counts[user := 1];
        order := order + [user];
      }
      j := j + 1;
    }
    assert users[..|users|] == users;
  }

  /** The map's entries in the order of order. */
  method Entries(counts: map<int, int>, order: seq<int>) returns (entries: seq<UserCount>)
    requires forall m :: 0 <= m < |order| ==> order[m] in counts
    ensures |entries| == |order| && forall m :: 0 <= m < |order| ==> entries[m] == UserCount(order[m], counts[order[m]])
  {
    entries := [];
    var k := 0;
    while k < |order|
      invariant 0 <= k <= |order|
      invariant |entries| == k && forall m :: 0 <= m < k ==> entries[m] == UserCount(order[m], counts[order[m]])
    {
      entries := entries + [UserCount(order[k], counts[order[k]])];
      k := k + 1;
    }
  }

  /** Merging a row's users into the tally of the earlier rows gives the tally of all of them. */
  lemma MergeTally(lists: seq<seq<int>>, users: seq<int>)
    ensures Merge(Tally(Flatten(lists)), users) == Tally(Flatten(lists + [users]))
  {
    var before := Tally(Flatten(lists));
    MergeCounts(before, users);
    assert (lists + [users])[..|lists|] == lists;
    assert Flatten(lists + [users]) == Flatten(lists) + users;
    var m := Merge(before, users);
    var t := Tally(Flatten(lists + [users]));
    assert forall u :: u in m <==> u in t;
    assert forall u :: u in m ==> m[u] == t[u];
  }

  /** The row loop of getTopUsers: the per-user tally, and each user in first-seen order. */
  method TallyRows(rows: seq<ReactRow>) returns (ok: bool, counts: map<int, int>, order: seq<int>)
    ensures ok <==> UserLists(rows).Success?
    ensures ok ==> counts == Tally(Flatten(UserLists(rows).value))
    ensures NoDuplicates(order) && forall u :: u in order <==> u in counts
  {
    counts := map[];
    order := [];
    ghost var lists: seq<seq<int>> := [];
    var i := 0;
    while i < |rows|
      invariant 0 <= i <= |rows|
      invariant UserLists(rows[..i]) == Success(lists)
      invariant counts == Tally(Flatten(lists))
      invariant NoDuplicates(order) && forall u :: u in order <==> u in counts
    {
      var users := ExtractList(Some(rows[i].reactedUsers));
      if users.Failure? {
        RowFails(rows, i);
        return false, counts, order;
      }
      CollectSnoc(rows, i, RowUsers, lists);
      MergeTally(lists, users.value);
      counts, order := MergeRow(counts, order, users.value);
      lists := lists + [users.value];
      i := i + 1;
    }
    assert rows[..|rows|] == rows;
    ok := true;
  }

  /**
   * getTopUsers: every user's number of occurrences over all rows, duplicates
   * within a row included, ranked largest first and cut to limit. The HashMap
   * iteration order is not fixed, so users with equal counts may come in any
   * order; this method lists them in first-seen order. A row that does not
   * parse throws NumberFormatException, and a negative limit
   * IllegalArgumentException.
   */
  method GetTopUsers(rows: seq<ReactRow>, limit: int) returns (r: Result<seq<UserCount>>)
    ensures UserLists(rows).Failure? ==> r == Failure(NumberFormat)
    ensures UserLists(rows).Success? && limit < 0 ==> r == Failure(IllegalArgument)
    ensures UserLists(rows).Success? && limit >= 0 ==>
      r.Success? && IsTopUsers(r.value, Tally(Flatten(UserLists(rows).value)), limit)
  {
    var ok, counts, order := TallyRows(rows);
    if !ok {
      return Failure(NumberFormat);
    }
    if limit < 0 {
      return Failure(IllegalArgument);
    }
    assert forall m :: 0 <= m < |order| ==> order[m] in counts by {
      forall m | 0 <= m < |order| ensures order[m] in counts {
        assert order[m] in order;
      }
    }
    var entries := Entries(counts, order);
    TopOfEntries(counts, order, entries, limit);
    r := Success(Take(SortBy(entries, ByUserCountDesc), limit));
  }

  /** One row that does not parse makes the whole scan fail. */
  lemma RowFails(rows: seq<ReactRow>, i: nat)
    requires i < |rows| && ExtractList(Some(rows[i].reactedUsers)).Failure?
    ensures UserLists(rows).Failure?
  {
    UserListsSpec(rows);
  }
}
