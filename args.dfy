/**
 * Args: the command-line flags of the bot, written --key="value". The argv
 * entries are joined and scanned with the pattern --([A-Za-z0-9]+)="([^"]+)",
 * recording one key/value pair per match.
 */
module CommandLine {
  import opened Wrappers
  import opened Strings

  /** A character of [A-Za-z0-9]. */
  predicate IsKeyChar(c: char) {
    ('A' <= c <= 'Z') || ('a' <= c <= 'z') || ('0' <= c <= '9')
  }

  /** Each entry followed by one space, as the StringBuilder loop appends them. */
  function Combined(flags: seq<string>): string {
    if flags == [] then "" else Combined(flags[..|flags| - 1]) + flags[|flags| - 1] + " "
  }

  /** The end of the run of key characters starting at p. */
  function KeyEnd(s: string, p: nat): (e: nat)
    requires p <= |s|
    ensures p <= e <= |s|
    ensures forall i :: p <= i < e ==> IsKeyChar(s[i])
    ensures e < |s| ==> !IsKeyChar(s[e])
    decreases |s| - p
  {
    if p < |s| && IsKeyChar(s[p]) then KeyEnd(s, p + 1) else p
  }

  /** The end of the run of non-quote characters starting at p. */
  function ValueEnd(s: string, p: nat): (e: nat)
    requires p <= |s|
    ensures p <= e <= |s|
    ensures forall i :: p <= i < e ==> s[i] != '"'
    ensures e < |s| ==> s[e] == '"'
    decreases |s| - p
  {
    if p < |s| && s[p] != '"' then ValueEnd(s, p + 1) else p
  }

  /** A match of the pattern: group 2, group 3, and the index just past the closing quote. */
  datatype Match = Match(key: string, value: string, end: nat)

  /** The text of a match is its four literal characters around the key and the value. */
  lemma MatchText(s: string, p: nat, ke: nat, ve: nat)
    requires p + 2 < ke && ke + 2 < ve < |s|
    requires s[p] == '-' && s[p + 1] == '-' && s[ke] == '=' && s[ke + 1] == '"' && s[ve] == '"'
    requires forall i :: ke + 2 <= i < ve ==> s[i] != '"'
    ensures '"' !in s[ke + 2..ve]
    ensures s[p..ve + 1] == "--" + s[p + 2..ke] + "=\"" + s[ke + 2..ve] + "\""
  {
    var value := s[ke + 2..ve];
    forall i | 0 <= i < |value| ensures value[i] != '"' {
      assert value[i] == s[ke + 2 + i];
    }
    assert s[p..ve + 1] == s[p..p + 2] + s[p + 2..ke] + s[ke..ke + 2] + s[ke + 2..ve] + s[ve..ve + 1];
  }

  /**
   * The match starting exactly at p, if any. Both repetitions are greedy and
   * a shorter run would leave a key or value character where the pattern
   * wants '=' or '"', so the longest runs are the only candidates.
   */
  function MatchAt(s: string, p: nat): (m: Option<Match>)
    requires p <= |s|
    ensures m.Some? ==> p < m.value.end <= |s|
    ensures m.Some? ==> m.value.key != [] && forall i :: 0 <= i < |m.value.key| ==> IsKeyChar(m.value.key[i])
    ensures m.Some? ==> m.value.value != [] && '"' !in m.value.value
    ensures m.Some? ==> s[p..m.value.end] == "--" + m.value.key + "=\"" + m.value.value + "\""
  {
    if p + 2 <= |s| && s[p] == '-' && s[p + 1] == '-' then
      var ke := KeyEnd(s, p + 2);
      if ke > p + 2 && ke + 2 <= |s| && s[ke] == '=' && s[ke + 1] == '"' then
        var ve := ValueEnd(s, ke + 2);
        if ve > ke + 2 && ve < |s| then
          var key := s[p + 2..ke];
          var value := s[ke + 2..ve];
          MatchText(s, p, ke, ve);
          Some(Match(key, value, ve + 1))
        else None
      else None
    else None
  }

  /** Conversely, a well-formed --KEY="VALUE" starting at p is the match at p. */
  lemma MatchAtComplete(s: string, p: nat, key: string, value: string)
    requires p + |key| + |value| + 5 <= |s|
    requires key != [] && forall i :: 0 <= i < |key| ==> IsKeyChar(key[i])
    requires value != [] && '"' !in value
    requires s[p..p + |key| + |value| + 5] == "--" + key + "=\"" + value + "\""
    ensures MatchAt(s, p) == Some(Match(key, value, p + |key| + |value| + 5))
  {
    var ke := p + 2 + |key|;
    var ve := ke + 2 + |value|;
    OccurrenceChars(s, p, key, value);
    MatchAtFromChars(s, p, ke, ve);
  }

  /** The match at p read off the characters of an occurrence. */
  lemma MatchAtFromChars(s: string, p: nat, ke: nat, ve: nat)
    requires p + 2 < ke && ke + 2 < ve < |s|
    requires s[p] == '-' && s[p + 1] == '-' && s[ke] == '=' && s[ke + 1] == '"' && s[ve] == '"'
    requires forall i :: p + 2 <= i < ke ==> IsKeyChar(s[i])
    requires forall i :: ke + 2 <= i < ve ==> s[i] != '"'
    ensures MatchAt(s, p) == Some(Match(s[p + 2..ke], s[ke + 2..ve], ve + 1))
  {
    KeyRun(s, p + 2, ke);
    ValueRun(s, ke + 2, ve);
  }

  /** The characters of an occurrence of --KEY="VALUE" at p, one by one. */
  lemma OccurrenceChars(s: string, p: nat, key: string, value: string)
    requires p + |key| + |value| + 5 <= |s|
    requires key != [] && forall i :: 0 <= i < |key| ==> IsKeyChar(key[i])
    requires '"' !in value
    requires s[p..p + |key| + |value| + 5] == "--" + key + "=\"" + value + "\""
    ensures var ke, ve := p + 2 + |key|, p + 4 + |key| + |value|;
      && s[p] == '-' && s[p + 1] == '-' && s[ke] == '=' && s[ke + 1] == '"' && s[ve] == '"'
      && s[p + 2..ke] == key && s[ke + 2..ve] == value
      && (forall i :: p + 2 <= i < ke ==> IsKeyChar(s[i]))
      && (forall i :: ke + 2 <= i < ve ==> s[i] != '"')
  {
    var ke, ve := p + 2 + |key|, p + 4 + |key| + |value|;
    var t := s[p..ve + 1];
    assert t[..2] == "--" && t[2..2 + |key|] == key && t[2 + |key|..4 + |key|] == "=\"";
    assert t[4 + |key|..4 + |key| + |value|] == value && t[4 + |key| + |value|] == '"';
    assert s[p + 2..ke] == t[2..2 + |key|];
    assert s[ke + 2..ve] == t[4 + |key|..4 + |key| + |value|];
    assert s[p] == t[0] && s[p + 1] == t[1] && s[ke] == t[2 + |key|] && s[ke + 1] == t[3 + |key|];
    forall i | p + 2 <= i < ke
      ensures IsKeyChar(s[i])
    {
      assert s[i] == key[i - p - 2];
    }
    forall i | ke + 2 <= i < ve
      ensures s[i] != '"'
    {
      assert s[i] == value[i - ke - 2];
    }
  }

  /** The matches Matcher.find reports from p on: left to right, never overlapping. */
  function FindAll(s: string, p: nat): (r: seq<(string, string)>)
    requires p <= |s|
    ensures forall i :: 0 <= i < |r| ==> r[i].0 != [] && r[i].1 != [] && '"' !in r[i].1
    ensures forall i :: 0 <= i < |r| ==> forall j :: 0 <= j < |r[i].0| ==> IsKeyChar(r[i].0[j])
    decreases |s| - p
  {
    if p >= |s| then []
    else match MatchAt(s, p)
      case Some(m) => [(m.key, m.value)] + FindAll(s, m.end)
      case None => FindAll(s, p + 1)
  }

  /** Positions where no match starts are skipped one by one. */
  lemma {:induction false} FindAllSkip(s: string, p: nat, q: nat)
    requires p <= q <= |s|
    requires forall j :: p <= j < q ==> MatchAt(s, j).None?
    ensures FindAll(s, p) == FindAll(s, q)
    decreases q - p
  {
    if p < q {
      FindAllSkip(s, p + 1, q);
    }
  }

  /**
   * Each occurrence the scan reaches is reported: when no match starts in
   * [p, q) and --KEY="VALUE" starts at q, the scan from p reports that pair
   * first and resumes just past its closing quote.
   */
  lemma FindAllOccurrence(s: string, p: nat, q: nat, key: string, value: string)
    requires p <= q && q + |key| + |value| + 5 <= |s|
    requires forall j :: p <= j < q ==> MatchAt(s, j).None?
    requires key != [] && forall i :: 0 <= i < |key| ==> IsKeyChar(key[i])
    requires value != [] && '"' !in value
    requires s[q..q + |key| + |value| + 5] == "--" + key + "=\"" + value + "\""
    ensures FindAll(s, p) == [(key, value)] + FindAll(s, q + |key| + |value| + 5)
  {
    var m := Match(key, value, q + |key| + |value| + 5);
    assert FindAll(s, p) == FindAll(s, q) by {
      FindAllSkip(s, p, q);
    }
    assert MatchAt(s, q) == Some(m) by {
      MatchAtComplete(s, q, key, value);
    }
    FindAllAt(s, q, m);
  }

  /** The scan from a match reports it first and resumes past it. */
  lemma FindAllAt(s: string, q: nat, m: Match)
    requires q <= |s| && MatchAt(s, q) == Some(m)
    ensures FindAll(s, q) == [(m.key, m.value)] + FindAll(s, m.end)
  {
  }

  /** The map after putting each pair in order: a later pair for a key replaces an earlier one. */
  function Record(pairs: seq<(string, string)>): map<string, string> {
    if pairs == [] then map[]
    else Record(pairs[..|pairs| - 1])[pairs[|pairs| - 1].0 := pairs[|pairs| - 1].1]
  }

  /** The argument map the constructor builds from argv. */
  function ArgsOf(flags: seq<string>): map<string, string> {
    var text := Trim(Combined(flags));
    Record(FindAll(text, 0))
  }

  /**
   * A key is recorded exactly when some pair has it, and it maps to the
   * value of the last such pair.
   */
  lemma {:induction false} RecordLastWins(pairs: seq<(string, string)>, k: string)
    ensures k in Record(pairs) <==> exists i :: 0 <= i < |pairs| && pairs[i].0 == k
    ensures forall i :: (0 <= i < |pairs| && pairs[i].0 == k &&
                         (forall j :: i < j < |pairs| ==> pairs[j].0 != k)) ==> Record(pairs)[k] == pairs[i].1
  {
    if pairs != [] {
      var init := pairs[..|pairs| - 1];
      RecordLastWins(init, k);
      forall i | 0 <= i < |init| ensures init[i] == pairs[i] { }
      if exists i :: 0 <= i < |pairs| && pairs[i].0 == k {
        var i :| 0 <= i < |pairs| && pairs[i].0 == k;
        if i < |init| {
          assert init[i].0 == k;
        }
      }
    }
  }

  /** Every recorded value is non-empty and quote-free, and every key is [A-Za-z0-9]+. */
  lemma {:induction false} RecordShape(pairs: seq<(string, string)>)
    requires forall i :: 0 <= i < |pairs| ==> pairs[i].0 != [] && pairs[i].1 != [] && '"' !in pairs[i].1
    ensures forall k :: k in Record(pairs) ==> k != [] && Record(pairs)[k] != [] && '"' !in Record(pairs)[k]
  {
    if pairs != [] {
      RecordShape(pairs[..|pairs| - 1]);
    }
  }

  /** The constructor never records an empty value, so getArg's isEmpty test never fires. */
  lemma ArgsValuesNonEmpty(flags: seq<string>)
    ensures forall k :: k in ArgsOf(flags) ==> ArgsOf(flags)[k] != [] && '"' !in ArgsOf(flags)[k]
  {
    RecordShape(FindAll(Trim(Combined(flags)), 0));
  }

  /** getArg on a map: the value, or NullPointerException when it is absent or empty. */
  function GetArgOf(args: map<string, string>, arg: string): (r: Result<string>)
    ensures r.Success? <==> arg in args && args[arg] != []
    ensures r.Success? ==> r.value == args[arg]
    ensures r.Failure? ==> r.error == NullPointer
  {
    if arg !in args || args[arg] == [] then Failure(NullPointer) else Success(args[arg])
  }

  /** The StringBuilder loop: each entry and then a space. */
  method JoinFlags(flags: seq<string>) returns (combined: string)
    ensures combined == Combined(flags)
  {
    combined := "";
    var i := 0;
    while i < |flags|
      invariant 0 <= i <= |flags|
      invariant combined == Combined(flags[..i])
    {
      assert flags[..i + 1][..i] == flags[..i];
      combined := combined + flags[i] + " ";
      i := i + 1;
    }
    assert flags[..|flags|] == flags;
  }

  /** One find() step: a match at p is reported and the search resumes after it; otherwise at p + 1. */
  lemma FindAllUnfold(s: string, p: nat, found: seq<(string, string)>)
    requires p < |s|
    ensures MatchAt(s, p).Some? ==>
              found + FindAll(s, p) ==
              (found + [(MatchAt(s, p).value.key, MatchAt(s, p).value.value)]) + FindAll(s, MatchAt(s, p).value.end)
    ensures MatchAt(s, p).None? ==> FindAll(s, p) == FindAll(s, p + 1)
  {
  }

  /** Putting one more pair. */
  lemma RecordSnoc(pairs: seq<(string, string)>, pair: (string, string))
    ensures Record(pairs + [pair]) == Record(pairs)[pair.0 := pair.1]
  {
    assert (pairs + [pair])[..|pairs|] == pairs;
  }

  /** The Matcher.find loop: each match, left to right, put into the map. */
  method ScanFlags(text: string) returns (recorded: map<string, string>)
    ensures recorded == Record(FindAll(text, 0))
  {
    recorded := map[];
    var p: nat := 0;
    ghost var found: seq<(string, string)> := [];
    while p < |text|
      invariant p <= |text|
      invariant found + FindAll(text, p) == FindAll(text, 0)
      invariant recorded == Record(found)
      decreases |text| - p
    {
      var m := MatchAt(text, p);
      FindAllUnfold(text, p, found);
      if m.Some? {
        ghost var pair := (m.value.key, m.value.value);
        RecordSnoc(found, pair);
        recorded := recorded[m.value.key := m.value.value];
        found := found + [pair];
        p := m.value.end;
      }
      else {
        p := p + 1;
      }
    }
    assert found == FindAll(text, 0);
  }

  /** The parsed flags. */
  class Args {
    var args: map<string, string>

    /** Joins argv with spaces, trims, and records every match of the flag pattern in order. */
    constructor (flags: seq<string>)
      ensures args == ArgsOf(flags)
    {
      var combined := JoinFlags(flags);
      var recorded := ScanFlags(Trim(combined));
      args := recorded;
    }

    /**
     * getArg: the recorded value, or NullPointerException when the key was not
     * given. The empty-value case also throws, but the constructor never
     * records an empty value (ArgsValuesNonEmpty).
     */
    function GetArg(arg: string): (r: Result<string>)
      reads this
      ensures r.Success? <==> arg in args && args[arg] != []
      ensures r.Success? ==> r.value == args[arg]
      ensures arg !in args ==> r == Failure(NullPointer)
      ensures arg in args && args[arg] == [] ==> r == Failure(NullPointer)
    {
      GetArgOf(args, arg)
    }
  }

  /** The joined and trimmed text of ["--token=\"a", "b\""]. */
  lemma SpanningText(flags: seq<string>)
    requires flags == ["--token=\"a", "b\""]
    ensures Trim(Combined(flags)) == "--token=\"a b\""
  {
    var combined := Combined(flags);
    assert flags[..1] == ["--token=\"a"] && flags[..1][..0] == [];
    assert Combined(flags[..1]) == "--token=\"a" + " ";
    assert combined == "--token=\"a" + " " + "b\"" + " ";
    assert combined == "--token=\"a b\" ";
    TrimExample(combined);
  }

  /** The one match in "--token=\"a b\"". */
  lemma SpanningMatch(text: string)
    requires text == "--token=\"a b\""
    ensures MatchAt(text, 0) == Some(Match("token", "a b", 13))
  {
    KeyRun(text, 2, 7);
    ValueRun(text, 9, 12);
    assert text[2..7] == "token" && text[9..12] == "a b";
    assert text[0] == '-' && text[1] == '-' && text[7] == '=' && text[8] == '"';
  }

  /** A quoted value may span argv entries: ["--token=\"a", "b\""] records token as "a b". */
  lemma SpanningValue(flags: seq<string>)
    requires flags == ["--token=\"a", "b\""]
    ensures ArgsOf(flags) == map["token" := "a b"]
  {
    SpanningText(flags);
    var text := Trim(Combined(flags));
    SpanningMatch(text);
    assert |text| == 13;
    assert FindAll(text, 0) == [("token", "a b")];
    RecordSnoc([], ("token", "a b"));
    assert [("token", "a b")] == [] + [("token", "a b")];
  }

  /** Text without a double quote records nothing: an unquoted --k=v is ignored. */
  lemma {:induction false} UnquotedIgnored(s: string, p: nat)
    requires p <= |s|
    requires '"' !in s
    ensures FindAll(s, p) == []
    decreases |s| - p
  {
    if p < |s| {
      UnquotedIgnored(s, p + 1);
    }
  }

  /** An empty quoted value does not match: --k="" records nothing. */
  lemma EmptyValueIgnored(s: string)
    requires s == "--k=\"\""
    ensures FindAll(s, 0) == []
  {
    KeyRun(s, 2, 3);
    ValueRun(s, 5, 5);
    assert MatchAt(s, 0).None?;
    assert FindAll(s, 5) == [] && FindAll(s, 4) == [] && FindAll(s, 3) == [];
    assert FindAll(s, 2) == [] && FindAll(s, 1) == [];
  }

  /** The exact text of the example after trimming: the trailing space goes. */
  lemma TrimExample(s: string)
    requires s == "--token=\"a b\" "
    ensures Trim(s) == "--token=\"a b\""
  {
    assert TrimStart(s) == s;
    var t := s[..|s| - 1];
    assert t == "--token=\"a b\"";
    assert TrimEnd(t) == t;
  }

  /** KeyEnd over a known run. */
  lemma {:induction false} KeyRun(s: string, p: nat, e: nat)
    requires p <= e < |s|
    requires forall i :: p <= i < e ==> IsKeyChar(s[i])
    requires !IsKeyChar(s[e])
    ensures KeyEnd(s, p) == e
    decreases e - p
  {
    if p < e {
      KeyRun(s, p + 1, e);
    }
  }

  /** ValueEnd over a known run. */
  lemma {:induction false} ValueRun(s: string, p: nat, e: nat)
    requires p <= e < |s|
    requires forall i :: p <= i < e ==> s[i] != '"'
    requires s[e] == '"'
    ensures ValueEnd(s, p) == e
    decreases e - p
  {
    if p < e {
      ValueRun(s, p + 1, e);
    }
  }
}
