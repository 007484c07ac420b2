/**
 * TimeUtils: the text of a duration ("1 day, 2 hours, 1 second") and of a
 * time of day on the 12-hour clock ("1:05 PM").
 */
module TimeUtils {
  import opened Wrappers
  import opened Decimal

  const DAY: nat := 86400000
  const HOUR: nat := 3600000
  const MINUTE: nat := 60000
  const SECOND: nat := 1000

  // ---------------------------------------------------------------------
  // formatDuration

  /** "value name", with a plural s unless the value is exactly 1. */
  function UnitText(value: nat, name: string): string {
    NatToString(value) + " " + name + (if value == 1 then "" else "s")
  }

  /** The pieces separated by ", "; no pieces give "". */
  function CommaJoin(pieces: seq<string>): string {
    if |pieces| == 0 then ""
    else if |pieces| == 1 then pieces[0]
    else CommaJoin(pieces[..|pieces| - 1]) + ", " + pieces[|pieces| - 1]
  }

  /** What appending one piece does to the StringBuilder: a ", " first unless it is empty. */
  function Appended(result: string, piece: string): string {
    if result == [] then piece else result + ", " + piece
  }

  /** The values appendUnit reads off, unit by unit, with what is left for the milliseconds. */
  datatype Units = Units(days: nat, hours: nat, minutes: nat, seconds: nat, millis: nat)

  /** Each unit takes the quotient of what the larger units left over. */
  function Decompose(ms: nat): (u: Units)
    ensures u.hours < 24 && u.minutes < 60 && u.seconds < 60 && u.millis < 1000
    ensures u.days * DAY + u.hours * HOUR + u.minutes * MINUTE + u.seconds * SECOND + u.millis == ms
  {
    var afterDays := ms % DAY;
    var afterHours := afterDays % HOUR;
    var afterMinutes := afterHours % MINUTE;
    Units(ms / DAY, afterDays / HOUR, afterHours / MINUTE, afterMinutes / SECOND, afterMinutes % SECOND)
  }

  /** The text of one unit when its value is positive, and nothing otherwise. */
  function Part(value: nat, name: string): seq<string> {
    if value > 0 then [UnitText(value, name)] else []
  }

  /** The texts of the nonzero units, largest first; milliseconds only when asked for. */
  function Pieces(u: Units, includeMillis: bool): seq<string> {
    Part(u.days, "day") + Part(u.hours, "hour") + Part(u.minutes, "minute") + Part(u.seconds, "second") +
    (if includeMillis then Part(u.millis, "millisecond") else [])
  }

  /** The text formatDuration returns, or the IllegalArgumentException it throws for a negative input. */
  function DurationText(ms: int, includeMillis: bool): Result<string> {
    if ms < 0 then Failure(IllegalArgument)
    else
      var pieces := Pieces(Decompose(ms), includeMillis);
      Success(if pieces == [] then "0 milliseconds" else CommaJoin(pieces))
  }

  /** Appending a piece to the joined pieces joins one piece more. */
  lemma AppendedJoin(pieces: seq<string>, piece: string)
    requires forall i :: 0 <= i < |pieces| ==> pieces[i] != []
    ensures Appended(CommaJoin(pieces), piece) == CommaJoin(pieces + [piece])
  {
    var p := pieces + [piece];
    assert p[..|p| - 1] == pieces;
    if |pieces| == 1 {
      assert CommaJoin(pieces) == pieces[0];
    } else if |pieces| > 1 {
      JoinNonEmpty(pieces);
    }
  }

  /** Joined non-empty pieces are non-empty and start with the first piece's first character. */
  lemma {:induction false} JoinNonEmpty(pieces: seq<string>)
    requires |pieces| >= 1 && forall i :: 0 <= i < |pieces| ==> pieces[i] != []
    ensures CommaJoin(pieces) != [] && CommaJoin(pieces)[0] == pieces[0][0]
  {
    if |pieces| > 1 {
      var init := pieces[..|pieces| - 1];
      JoinNonEmpty(init);
      assert init[0] == pieces[0];
    }
  }

  /** A zero quotient leaves the whole amount as the remainder. */
  lemma ZeroQuotient(remaining: nat, unitMillis: nat)
    requires unitMillis > 0 && remaining / unitMillis == 0
    ensures remaining % unitMillis == remaining
  {
  }

  /** appendUnit: appends the unit's text when its value is positive, and returns the remainder. */
  method AppendUnit(result: string, remaining: nat, unitMillis: nat, name: string)
    returns (newResult: string, newRemaining: nat)
    requires unitMillis > 0
    ensures newRemaining == remaining % unitMillis
    ensures newResult == (if remaining / unitMillis > 0 then Appended(result, UnitText(remaining / unitMillis, name)) else result)
  {
    var value := remaining / unitMillis;
    newResult := result;
    newRemaining := remaining;
    if value > 0 {
      var piece := NatToString(value) + " " + name + (if value == 1 then "" else "s");
      if result != [] {
        newResult := newResult + ", ";
      }
      newResult := newResult + piece;
      newRemaining := remaining % unitMillis;
    } else {
      ZeroQuotient(remaining, unitMillis);
    }
  }

  /** Each appended piece starts with a digit, so no piece is empty. */
  lemma PiecesNonEmpty(u: Units, includeMillis: bool)
    ensures forall i :: 0 <= i < |Pieces(u, includeMillis)| ==> Pieces(u, includeMillis)[i] != []
  {
  }

  /** The four appendUnit calls, for days down to seconds. */
  method AppendUnits(milliseconds: nat) returns (ms: nat, result: string, ghost done: seq<string>)
    ensures ms == Decompose(milliseconds).millis
    ensures done == Pieces(Decompose(milliseconds), false)
    ensures result == CommaJoin(done) && forall i :: 0 <= i < |done| ==> done[i] != []
  {
    ghost var u := Decompose(milliseconds);
    result := "";
    done := [];
    ms, result, done := Step(result, milliseconds, DAY, "day", done);
    assert done == Part(u.days, "day");
    ms, result, done := Step(result, ms, HOUR, "hour", done);
    assert done == Part(u.days, "day") + Part(u.hours, "hour");
    ms, result, done := Step(result, ms, MINUTE, "minute", done);
    ms, result, done := Step(result, ms, SECOND, "second", done);
    assert done == Part(u.days, "day") + Part(u.hours, "hour") + Part(u.minutes, "minute") + Part(u.seconds, "second");
  }

  /** The millisecond piece of formatDuration, appended only when asked for and positive. */
  method AppendMillis(result: string, ms: nat, includeMillis: bool, ghost done: seq<string>)
    returns (newResult: string, ghost newDone: seq<string>)
    requires result == CommaJoin(done) && forall i :: 0 <= i < |done| ==> done[i] != []
    ensures newDone == done + (if includeMillis then Part(ms, "millisecond") else [])
    ensures newResult == CommaJoin(newDone) && forall i :: 0 <= i < |newDone| ==> newDone[i] != []
  {
    newResult := result;
    newDone := done;
    if includeMillis && ms > 0 {
      AppendedJoin(done, UnitText(ms, "millisecond"));
      if newResult != [] {
        newResult := newResult + ", ";
      }
      var piece := NatToString(ms) + (if ms == 1 then " millisecond" else " milliseconds");
      assert piece == UnitText(ms, "millisecond");
      newResult := newResult + piece;
      newDone := done + [UnitText(ms, "millisecond")];
    }
  }

  /** The pieces with milliseconds are the pieces without them, then the millisecond piece. */
  lemma PiecesWithMillis(u: Units, includeMillis: bool)
    ensures Pieces(u, includeMillis) == Pieces(u, false) + (if includeMillis then Part(u.millis, "millisecond") else [])
  {
  }

  /** formatDuration, proved against DurationText. */
  method FormatDuration(milliseconds: int, includeMillis: bool) returns (r: Result<string>)
    ensures r == DurationText(milliseconds, includeMillis)
  {
    if milliseconds < 0 {
      return Failure(IllegalArgument);
    }
    var ms, result, done := AppendUnits(milliseconds);
    result, done := AppendMillis(result, ms, includeMillis, done);
    PiecesWithMillis(Decompose(milliseconds), includeMillis);
    assert result == [] <==> done == [] by {
      if done != [] {
        JoinNonEmpty(done);
      }
    }
    r := Success(if result == [] then "0 milliseconds" else result);
  }

  /** One appendUnit call, with the pieces appended so far as a ghost record. */
  method Step(result: string, remaining: nat, unitMillis: nat, name: string, ghost done: seq<string>)
    returns (newRemaining: nat, newResult: string, ghost newDone: seq<string>)
    requires unitMillis > 0
    requires result == CommaJoin(done) && forall i :: 0 <= i < |done| ==> done[i] != []
    ensures newRemaining == remaining % unitMillis
    ensures newDone == done + Part(remaining / unitMillis, name)
    ensures newResult == CommaJoin(newDone) && forall i :: 0 <= i < |newDone| ==> newDone[i] != []
  {
    newResult, newRemaining := AppendUnit(result, remaining, unitMillis, name);
    if remaining / unitMillis > 0 {
      AppendedJoin(done, UnitText(remaining / unitMillis, name));
      newDone := done + [UnitText(remaining / unitMillis, name)];
    } else {
      newDone := done;
    }
  }

  /** A positive number's text does not start with '0'. */
  lemma PositiveText(n: nat)
    requires n > 0
    ensures NatToString(n)[0] != '0'
  {
    if n >= 10 {
      assert |NatToString(n)| > 1;
    }
  }

  /**
   * The result is "0 milliseconds" exactly when nothing is appended: for 0,
   * and for anything under a second when milliseconds are left out.
   */
  lemma ZeroText(ms: int, includeMillis: bool)
    requires ms >= 0
    ensures DurationText(ms, includeMillis) == Success("0 milliseconds") <==> (ms == 0 || (!includeMillis && ms < 1000))
  {
    var u := Decompose(ms);
    var pieces := Pieces(u, includeMillis);
    if pieces != [] {
      PiecesNonEmpty(u, includeMillis);
      JoinNonEmpty(pieces);
      var v := if u.days > 0 then u.days else if u.hours > 0 then u.hours
               else if u.minutes > 0 then u.minutes else if u.seconds > 0 then u.seconds else u.millis;
      assert v > 0 && pieces[0][0] == NatToString(v)[0];
      PositiveText(v);
      assert CommaJoin(pieces)[0] != "0 milliseconds"[0];
    }
  }

  /** A unit is written in the singular exactly when its value is 1. */
  lemma {:induction false} SingularExactlyForOne(value: nat, name: string)
    ensures UnitText(value, name) == NatToString(value) + " " + name <==> value == 1
    ensures UnitText(value, name) == NatToString(value) + " " + name + "s" <==> value != 1
  {
    var stem := NatToString(value) + " " + name;
    assert |stem + "s"| != |stem|;
  }

  /** The text of a one-digit number is that digit. */
  lemma OneDigit(n: nat, c: char)
    requires n < 10 && c as int == '0' as int + n
    ensures NatToString(n) == [c]
  {
  }

  /** The text of a unit of value 1 is singular. */
  lemma OneUnit(name: string)
    ensures UnitText(1, name) == "1 " + name
  {
    OneDigit(1, '1');
  }

  lemma DurationExample(ms: nat)
    requires ms == DAY + HOUR + MINUTE + SECOND + 1
    ensures Decompose(ms) == Units(1, 1, 1, 1, 1)
    ensures Pieces(Decompose(ms), true) == ["1 day", "1 hour", "1 minute", "1 second", "1 millisecond"]
    ensures Pieces(Decompose(ms), false) == ["1 day", "1 hour", "1 minute", "1 second"]
  {
    var u := Decompose(ms);
    assert u == Units(1, 1, 1, 1, 1);
    OneUnit("day");
    OneUnit("hour");
    OneUnit("minute");
    OneUnit("second");
    OneUnit("millisecond");
    assert UnitText(1, "day") == "1 day" && UnitText(1, "hour") == "1 hour";
    assert UnitText(1, "minute") == "1 minute" && UnitText(1, "second") == "1 second";
    assert UnitText(1, "millisecond") == "1 millisecond";
  }

  /** 7 200 000 ms is "2 hours": the empty units are skipped and the name is plural. */
  lemma TwoHoursExample(ms: nat)
    requires ms == 2 * HOUR
    ensures DurationText(ms, true) == Success("2 hours")
  {
    assert Decompose(ms) == Units(0, 2, 0, 0, 0);
    OneDigit(2, '2');
    assert UnitText(2, "hour") == "2 hours";
    assert Pieces(Decompose(ms), true) == ["2 hours"];
  }

  // ---------------------------------------------------------------------
  // formatTime

  /** The hour on the 12-hour dial: 0 and 12 read as 12. */
  function DisplayHour(hour: int): (d: int)
    requires 0 <= hour < 24
    ensures 1 <= d <= 12
  {
    if hour % 12 == 0 then 12 else hour % 12
  }

  function Period(hour: int): string {
    if hour < 12 then "AM" else "PM"
  }

  /** %02d for a minute: exactly two digits, zero-padded. */
  function TwoDigits(m: int): (s: string)
    requires 0 <= m < 100
    ensures |s| == 2 && AllDigits(s) && DigitsValue(s) == m
  {
    var s := [DigitChar(m / 10), DigitChar(m % 10)];
    assert s[..1] == [DigitChar(m / 10)] && s[..1][..0] == [];
    assert DigitChar(m / 10) as int - '0' as int == m / 10;
    assert DigitChar(m % 10) as int - '0' as int == m % 10;
    assert DigitsValue(s[..1]) == m / 10;
    s
  }

  /** formatTime: "%d:%02d %s" of the dial hour, the minute and AM or PM. */
  function FormatTime(hour: int, minute: int): string
    requires 0 <= hour < 24 && 0 <= minute < 60
  {
    NatToString(DisplayHour(hour)) + ":" + TwoDigits(minute) + " " + Period(hour)
  }

  /** Hour 0 is 12 AM, 1-11 are AM, 12 is 12 PM, 13-23 are hour - 12 PM. */
  lemma FormatTimeCases(hour: int)
    requires 0 <= hour < 24
    ensures hour == 0 ==> DisplayHour(hour) == 12 && Period(hour) == "AM"
    ensures 1 <= hour <= 11 ==> DisplayHour(hour) == hour && Period(hour) == "AM"
    ensures hour == 12 ==> DisplayHour(hour) == 12 && Period(hour) == "PM"
    ensures 13 <= hour <= 23 ==> DisplayHour(hour) == hour - 12 && Period(hour) == "PM"
  {
  }

  /** The dial hour and the period determine the 24-hour hour. */
  lemma DialRoundTrip(hour: int)
    requires 0 <= hour < 24
    ensures DisplayHour(hour) % 12 + (if Period(hour) == "PM" then 12 else 0) == hour
  {
  }

  /** Decimal text without leading zeros names one number. */
  lemma NatToStringInjective(a: nat, b: nat)
    requires NatToString(a) == NatToString(b)
    ensures a == b
  {
    DigitsValueOfNat(a);
    DigitsValueOfNat(b);
  }

  /** Where the dial hour, the minute digits and the period sit in the text. */
  lemma FormatTimeLayout(hour: int, minute: int)
    requires 0 <= hour < 24 && 0 <= minute < 60
    ensures var s := FormatTime(hour, minute);
      var d := NatToString(DisplayHour(hour));
      |s| == |d| + 6 && s[..|d|] == d &&
      s[|s| - 5..|s| - 3] == TwoDigits(minute) && s[|s| - 2..] == Period(hour)
  {
    var s := FormatTime(hour, minute);
    var d := NatToString(DisplayHour(hour));
    var t := ":" + TwoDigits(minute) + " " + Period(hour);
    assert |Period(hour)| == 2;
    assert s == d + t;
    assert s[|d|..] == t;
    assert t[1..3] == TwoDigits(minute) && t[4..] == Period(hour);
  }

  /** Distinct times of day have distinct texts: the text gives the hour and minute back. */
  lemma FormatTimeInjective(h1: int, m1: int, h2: int, m2: int)
    requires 0 <= h1 < 24 && 0 <= m1 < 60 && 0 <= h2 < 24 && 0 <= m2 < 60
    requires FormatTime(h1, m1) == FormatTime(h2, m2)
    ensures h1 == h2 && m1 == m2
  {
    FormatTimeLayout(h1, m1);
    FormatTimeLayout(h2, m2);
    NatToStringInjective(DisplayHour(h1), DisplayHour(h2));
    assert TwoDigits(m1) == TwoDigits(m2);
    DialRoundTrip(h1);
    DialRoundTrip(h2);
  }
}
