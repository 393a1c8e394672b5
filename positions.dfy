/** Turning a checkpoint report's free-text `sourcePositionSummary` into a
    resume position: four label-keyed rules tried in a fixed order, the first
    that matches wins (the parsing tail of get_checkpoint_history). */
module Positions {
  import opened Text
  import opened Matching
  import opened Patterns

  datatype Position =
    | MySqlPosition(binlogName: string, offset: string)
    | SqlServerPosition(lsn: string)
    | MongoPosition(dateTime: string)
    | OraclePosition(scn: string)

  /** The `format_string` each kind of position is embedded as. */
  function Render(p: Position): string {
    match p
    case MySqlPosition(name, offset) => "FileName:" + name + ";offset:" + offset
    case SqlServerPosition(lsn) => "LSN:0x" + lsn
    case MongoPosition(dateTime) => dateTime
    case OraclePosition(scn) => scn
  }

  /** `s.replace(part, '')`: occurrences are removed left to right without
      overlapping, and the text left behind is not searched again. */
  function RemoveAll(s: string, part: string): (r: string)
    requires |part| > 0
    ensures |r| <= |s|
    ensures forall c :: c in r ==> c in s
  {
    if |s| < |part| then s
    else if part <= s then RemoveAll(s[|part|..], part)
    else [s[0]] + RemoveAll(s[1..], part)
  }

  function MySqlRule(summary: string): (r: Option<Position>)
    ensures r.Some? <==> Search(BinlogNameField, summary).Some? && Search(BinlogPositionField, summary).Some?
    ensures r.Some? ==> r.value.MySqlPosition? && Shaped(r.value)
  {
    var name :- FindGroup(BinlogNameField, summary);
    var offset :- FindGroup(BinlogPositionField, summary);
    Some(MySqlPosition(name, offset))
  }

  function SqlServerRule(summary: string): (r: Option<Position>)
    ensures r.Some? <==> Search(CommitLsnField, summary).Some?
    ensures r.Some? ==> r.value.SqlServerPosition? && Shaped(r.value)
  {
    var lsn :- FindGroup(CommitLsnField, summary);
    Some(SqlServerPosition(lsn))
  }

  function MongoRule(summary: string): (r: Option<Position>)
    ensures r.Some? <==> Search(UtcDateTimeField, summary).Some?
    ensures r.Some? ==> r.value.MongoPosition? && Shaped(r.value)
  {
    var raw :- FindGroup(UtcDateTimeField, summary);
    var d := RemoveAll(raw, ".000Z");
    assert forall i :: 0 <= i < |d| ==> d[i] in raw;
    Some(MongoPosition(d))
  }

  function OracleRule(summary: string): (r: Option<Position>)
    ensures r.Some? <==> Search(CommitScnField, summary).Some?
    ensures r.Some? ==> r.value.OraclePosition? && Shaped(r.value)
  {
    var scn :- FindGroup(CommitScnField, summary);
    Some(OraclePosition(scn))
  }

  /** What each kind of position is made of, by the pattern that found it. */
  predicate Shaped(p: Position) {
    match p
    case MySqlPosition(name, offset) =>
      |name| > 0 && AllIn(name, NonSpace) && |offset| > 0 && AllIn(offset, Digit)
    case SqlServerPosition(lsn) => |lsn| > 0 && AllIn(lsn, HexDigit)
    case MongoPosition(dateTime) => AllIn(dateTime, NoneOf(']'))
    case OraclePosition(scn) => |scn| > 0 && AllIn(scn, Digit)
  }

  /** The rules in priority order, MySQL, SQL Server, MongoDB, Oracle; the
      first that matches decides. A binlog position needs both of its labels,
      and is never produced from one alone. */
  function Extract(summary: string): (r: Option<Position>)
    ensures r.Some? ==> Shaped(r.value)
    ensures (r.Some? && r.value.MySqlPosition?) <==>
      Search(BinlogNameField, summary).Some? && Search(BinlogPositionField, summary).Some?
    ensures (r.Some? && r.value.SqlServerPosition?) <==>
      (Search(BinlogNameField, summary).None? || Search(BinlogPositionField, summary).None?)
      && Search(CommitLsnField, summary).Some?
    ensures (r.Some? && r.value.MongoPosition?) <==>
      (Search(BinlogNameField, summary).None? || Search(BinlogPositionField, summary).None?)
      && Search(CommitLsnField, summary).None? && Search(UtcDateTimeField, summary).Some?
    ensures (r.Some? && r.value.OraclePosition?) <==>
      (Search(BinlogNameField, summary).None? || Search(BinlogPositionField, summary).None?)
      && Search(CommitLsnField, summary).None? && Search(UtcDateTimeField, summary).None?
      && Search(CommitScnField, summary).Some?
    ensures r.None? <==>
      (Search(BinlogNameField, summary).None? || Search(BinlogPositionField, summary).None?)
      && Search(CommitLsnField, summary).None? && Search(UtcDateTimeField, summary).None?
      && Search(CommitScnField, summary).None?
  {
    if MySqlRule(summary).Some? then MySqlRule(summary)
    else if SqlServerRule(summary).Some? then SqlServerRule(summary)
    else if MongoRule(summary).Some? then MongoRule(summary)
    else OracleRule(summary)
  }

  /** The `sourcePositionSummary` field of a checkpoint entry: absent (read as
      the empty text), a text, or some other JSON value (re.search then raises,
      and the exception handler yields no position). */
  datatype Summary = Absent | Text(text: string) | NotText

  /** The report's entries, most recent first; only the first is looked at. */
  function FromHistory(entries: seq<Summary>): (r: Option<Position>)
    ensures entries == [] ==> r.None?
    ensures entries != [] && entries[0].Absent? ==> r.None?
    ensures entries != [] && entries[0].Text? ==> r == Extract(entries[0].text)
    ensures entries != [] && entries[0].NotText? ==> r.None?
    ensures r.Some? ==> entries != [] && entries[0].Text?
  {
    if entries == [] then None
    else match entries[0]
      case Absent => Extract("")
      case Text(summary) => Extract(summary)
      case NotText => None
  }

  // ---- the summaries the rules are written for ----

  /** Removing `.000Z` from a date-time that carries it once, at the end,
      and has no other `.` gives back the bare date-time. */
  lemma {:induction false} StripMillis(d: string)
    requires Lacks(d, '.')
    ensures RemoveAll(d + ".000Z", ".000Z") == d
  {
    if d == [] {
      assert ".000Z" <= ".000Z";
      assert RemoveAll(".000Z"[5..], ".000Z") == "";
    } else {
      assert !(".000Z" <= d + ".000Z") by { assert (d + ".000Z")[0] == d[0]; }
      assert (d + ".000Z")[1..] == d[1..] + ".000Z";
      StripMillis(d[1..]);
    }
  }

  /** A text of digits lacks every character that is not a digit. */
  lemma DigitsLack(s: string, c: char)
    requires AllIn(s, Digit) && !IsDigit(c)
    ensures Lacks(s, c)
  {
    forall i | 0 <= i < |s| ensures s[i] != c { assert In(s[i], Digit); }
  }

  lemma Lacks5(a: string, b: string, c: string, d: string, e: string, x: char)
    requires Lacks(a, x) && Lacks(b, x) && Lacks(c, x) && Lacks(d, x) && Lacks(e, x)
    ensures Lacks(a + b + c + d + e, x)
  {
    LacksAppend(a, b, x);
    LacksAppend(a + b, c, x);
    LacksAppend(a + b + c, d, x);
    LacksAppend(a + b + c + d, e, x);
  }

  lemma CommitScnAtMarker(scn: string, post: string)
    requires |scn| > 0 && AllIn(scn, Digit)
    ensures CommitScnAt("CommitSCN[" + scn + "]" + post) == Some(Hit(11 + |scn|, 10, 10 + |scn|))
  {
    var t := "CommitSCN[" + scn + "]" + post;
    assert t[10..10 + |scn|] == scn;
    assert t[10 + |scn|] == ']';
    RunIs(t, 10, Digit, 10 + |scn|);
    assert "]" <= t[10 + |scn|..];
  }

  /** An Oracle summary such as `{OpenSCN[30507229]-CommitSCN[30507230]-SeqNum[2]}`
      yields the commit SCN, whatever surrounds it that none of the other
      labels can start in. */
  lemma OracleSummary(pre: string, scn: string, post: string)
    requires |scn| > 0 && AllIn(scn, Digit)
    requires Lacks(pre, 'B') && Lacks(pre, ':') && Lacks(pre, 'U') && Lacks(pre, 'm')
    requires Lacks(post, 'B') && Lacks(post, ':') && Lacks(post, 'U')
    ensures Extract(pre + "CommitSCN[" + scn + "]" + post) == Some(OraclePosition(scn))
  {
    OracleSummaryLacks(pre, scn, post);
    OnlyOracle(pre + "CommitSCN[" + scn + "]" + post);
    CommitScnFound(pre, scn, post);
  }

  lemma CommitScnFound(pre: string, scn: string, post: string)
    requires |scn| > 0 && AllIn(scn, Digit)
    requires Lacks(pre, 'm')
    ensures FindGroup(CommitScnField, pre + "CommitSCN[" + scn + "]" + post) == Some(scn)
  {
    var rest := "CommitSCN[" + scn + "]" + post;
    assert pre + "CommitSCN[" + scn + "]" + post == pre + rest;
    CommitScnAtMarker(scn, post);
    ScnMarkerPieces(scn, post);
    NoLeadBefore(CommitScnField, pre, rest, 2);
    FoundAfter(CommitScnField, pre, rest, 10, 10 + |scn|);
  }

  lemma ScnMarkerPieces(scn: string, post: string)
    ensures var rest := "CommitSCN[" + scn + "]" + post;
      rest[..2] == "Co" && rest[10..10 + |scn|] == scn
  {
  }

  lemma OracleSummaryLacks(pre: string, scn: string, post: string)
    requires AllIn(scn, Digit)
    requires Lacks(pre, 'B') && Lacks(pre, ':') && Lacks(pre, 'U')
    requires Lacks(post, 'B') && Lacks(post, ':') && Lacks(post, 'U')
    ensures var s := pre + "CommitSCN[" + scn + "]" + post;
      Lacks(s, 'B') && Lacks(s, ':') && Lacks(s, 'U')
  {
    assert Lacks("CommitSCN[", 'B') && Lacks("CommitSCN[", ':') && Lacks("CommitSCN[", 'U');
    assert Lacks("]", 'B') && Lacks("]", ':') && Lacks("]", 'U');
    DigitsLack(scn, 'B'); DigitsLack(scn, ':'); DigitsLack(scn, 'U');
    Lacks5(pre, "CommitSCN[", scn, "]", post, 'B');
    Lacks5(pre, "CommitSCN[", scn, "]", post, ':');
    Lacks5(pre, "CommitSCN[", scn, "]", post, 'U');
  }

  /** A summary with no `B`, `:` or `U` can only be read by the Oracle rule. */
  lemma OnlyOracle(s: string)
    requires Lacks(s, 'B') && Lacks(s, ':') && Lacks(s, 'U')
    ensures Extract(s) == OracleRule(s)
  {
    AbsentLead(BinlogNameField, s, 0);
    AbsentLead(CommitLsnField, s, 9);
    AbsentLead(UtcDateTimeField, s, 0);
  }

  /** A MongoDB summary `... UTC DateTime value = 2025-10-02T20:48:28.000Z] ...`
      yields the date-time with the `.000Z` suffix removed. */
  lemma MongoSummary(pre: string, d: string, post: string)
    requires Lacks(d, 'B') && Lacks(d, 'S') && Lacks(d, ']') && Lacks(d, '.')
    requires Lacks(pre, 'B') && Lacks(pre, 'S') && Lacks(pre, 'U')
    requires Lacks(post, 'B') && Lacks(post, 'S')
    ensures Extract(pre + "UTC DateTime value = " + d + ".000Z]" + post) == Some(MongoPosition(d))
  {
    var s := pre + "UTC DateTime value = " + d + ".000Z]" + post;
    MongoSummaryLacks(pre, d, post);
    UtcDateTimeFound(pre, d, post);
    AbsentLead(BinlogNameField, s, 0);
    AbsentLead(CommitLsnField, s, 6);
    StripMillis(d);
  }

  lemma MongoSummaryLacks(pre: string, d: string, post: string)
    requires Lacks(d, 'B') && Lacks(d, 'S')
    requires Lacks(pre, 'B') && Lacks(pre, 'S') && Lacks(post, 'B') && Lacks(post, 'S')
    ensures var s := pre + "UTC DateTime value = " + d + ".000Z]" + post;
      Lacks(s, 'B') && Lacks(s, 'S')
  {
    assert Lacks("UTC DateTime value = ", 'B') && Lacks("UTC DateTime value = ", 'S');
    assert Lacks(".000Z]", 'B') && Lacks(".000Z]", 'S');
    Lacks5(pre, "UTC DateTime value = ", d, ".000Z]", post, 'B');
    Lacks5(pre, "UTC DateTime value = ", d, ".000Z]", post, 'S');
  }

  lemma UtcDateTimeFound(pre: string, d: string, post: string)
    requires Lacks(d, ']') && Lacks(pre, 'U')
    ensures FindGroup(UtcDateTimeField, pre + "UTC DateTime value = " + d + ".000Z]" + post) == Some(d + ".000Z")
  {
    var s := pre + "UTC DateTime value = " + d + ".000Z]" + post;
    var rest := "UTC DateTime value = " + d + ".000Z]" + post;
    assert s == pre + rest;
    var v := d + ".000Z";
    assert rest[21..21 + |v|] == v && rest[21 + |v|] == ']';
    assert AllIn(v, NoneOf(']')) by {
      forall i | 0 <= i < |v| ensures v[i] != ']' {
        if i >= |d| { assert v[i] == ".000Z"[i - |d|]; }
      }
    }
    RunIs(rest, 21, NoneOf(']'), 21 + |v|);
    assert "UTC DateTime value = " <= rest;
    assert UtcDateTimeAt(rest) == Some(Hit(21 + |v|, 21, 21 + |v|));
    assert Lacks(rest[..0], 'U');
    NoLeadBefore(UtcDateTimeField, pre, rest, 0);
    FoundAfter(UtcDateTimeField, pre, rest, 21, 21 + |v|);
  }

  /** A SQL Server summary `... CommitScn: <hex> ...` yields the LSN. */
  lemma SqlServerSummary(pre: string, lsn: string, post: string)
    requires |lsn| > 0 && AllIn(lsn, HexDigit)
    requires post == [] || !IsHexDigit(post[0])
    requires Lacks(pre, 'N') && Lacks(pre, 'm') && Lacks(post, 'N')
    ensures Extract(pre + "CommitScn: " + lsn + post) == Some(SqlServerPosition(lsn))
  {
    var s := pre + "CommitScn: " + lsn + post;
    assert Lacks("CommitScn: ", 'N');
    assert Lacks(lsn, 'N') by {
      forall i | 0 <= i < |lsn| ensures lsn[i] != 'N' { assert In(lsn[i], HexDigit); }
    }
    LacksAppend(pre, "CommitScn: ", 'N');
    LacksAppend(pre + "CommitScn: ", lsn, 'N');
    LacksAppend(pre + "CommitScn: " + lsn, post, 'N');
    AbsentLead(BinlogNameField, s, 6);
    CommitLsnFound(pre, lsn, post);
  }

  lemma CommitLsnFound(pre: string, lsn: string, post: string)
    requires |lsn| > 0 && AllIn(lsn, HexDigit)
    requires post == [] || !IsHexDigit(post[0])
    requires Lacks(pre, 'm')
    ensures FindGroup(CommitLsnField, pre + "CommitScn: " + lsn + post) == Some(lsn)
  {
    var s := pre + "CommitScn: " + lsn + post;
    var rest := "CommitScn: " + lsn + post;
    assert s == pre + rest;
    assert "CommitScn:" <= rest && rest[10] == ' ' && rest[10..11] == " ";
    assert rest[11] == lsn[0] && In(lsn[0], HexDigit);
    RunIs(rest, 10, Space, 11);
    assert rest[11..11 + |lsn|] == lsn;
    assert 11 + |lsn| < |rest| ==> rest[11 + |lsn|] == post[0];
    RunIs(rest, 11, HexDigit, 11 + |lsn|);
    assert LsnAt(rest) == Some(Hit(11 + |lsn|, 11, 11 + |lsn|));
    assert rest[..2] == "Co";
    NoLeadBefore(CommitLsnField, pre, rest, 2);
    FoundAfter(CommitLsnField, pre, rest, 11, 11 + |lsn|);
  }

  /** A MySQL summary `... BinlogName: <file> ... BinLogPosition: <n> ...`
      yields both fields; this rule is tried before every other. */
  lemma MySqlSummary(pre: string, name: string, sep: string, offset: string, post: string)
    requires |name| > 0 && AllIn(name, NonSpace) && Lacks(name, 'L')
    requires |sep| > 0 && IsSpace(sep[0]) && Lacks(sep, 'L')
    requires |offset| > 0 && AllIn(offset, Digit)
    requires post == [] || !IsDigit(post[0])
    requires Lacks(pre, 'B') && Lacks(pre, 'L')
    ensures Extract(pre + "BinlogName: " + name + sep + "BinLogPosition: " + offset + post)
         == Some(MySqlPosition(name, offset))
  {
    var s := pre + "BinlogName: " + name + sep + "BinLogPosition: " + offset + post;
    var head := pre + "BinlogName: " + name + sep;
    assert s == pre + "BinlogName: " + name + (sep + "BinLogPosition: " + offset + post);
    BinlogNameFound(pre, name, sep + "BinLogPosition: " + offset + post);
    HeadLacksL(pre, name, sep);
    BinLogPositionFound(head, offset, post);
    MySqlFirst(s, name, offset);
  }

  lemma HeadLacksL(pre: string, name: string, sep: string)
    requires Lacks(pre, 'L') && Lacks(name, 'L') && Lacks(sep, 'L')
    ensures Lacks(pre + "BinlogName: " + name + sep, 'L')
  {
    assert Lacks("BinlogName: ", 'L');
    LacksAppend(pre, "BinlogName: ", 'L');
    LacksAppend(pre + "BinlogName: ", name, 'L');
    LacksAppend(pre + "BinlogName: " + name, sep, 'L');
  }

  lemma MySqlFirst(s: string, name: string, offset: string)
    requires FindGroup(BinlogNameField, s) == Some(name)
    requires FindGroup(BinlogPositionField, s) == Some(offset)
    ensures Extract(s) == Some(MySqlPosition(name, offset))
  {
  }

  lemma BinlogNameFound(pre: string, name: string, rest: string)
    requires |name| > 0 && AllIn(name, NonSpace)
    requires |rest| > 0 && IsSpace(rest[0])
    requires Lacks(pre, 'B')
    ensures FindGroup(BinlogNameField, pre + "BinlogName: " + name + rest) == Some(name)
  {
    var t := "BinlogName: " + name + rest;
    assert pre + "BinlogName: " + name + rest == pre + t;
    assert "BinlogName" + ": " + name + rest == t;
    assert In(name[0], NonSpace);
    LabelColonRunOn("BinlogName", name, rest, NonSpace);
    assert t[12..12 + |name|] == name;
    assert Lacks(t[..0], 'B');
    NoLeadBefore(BinlogNameField, pre, t, 0);
    FoundAfter(BinlogNameField, pre, t, 12, 12 + |name|);
  }

  lemma BinLogPositionFound(head: string, offset: string, post: string)
    requires |offset| > 0 && AllIn(offset, Digit)
    requires post == [] || !IsDigit(post[0])
    requires Lacks(head, 'L')
    ensures FindGroup(BinlogPositionField, head + "BinLogPosition: " + offset + post) == Some(offset)
  {
    var t := "BinLogPosition: " + offset + post;
    assert head + "BinLogPosition: " + offset + post == head + t;
    BinLogPositionAt(offset, post);
    NoBinLogPositionBefore(head, t);
    FoundAfter(BinlogPositionField, head, t, 16, 16 + |offset|);
    assert t[16..16 + |offset|] == offset;
  }

  lemma NoBinLogPositionBefore(head: string, t: string)
    requires "BinL" <= t && Lacks(head, 'L')
    ensures forall j :: 0 <= j < |head| ==> !MatchesAt(MatcherOf(BinlogPositionField), head + t, j)
  {
    assert t[..3] == "Bin";
    NoLeadBefore(BinlogPositionField, head, t, 3);
  }

  lemma BinLogPositionAt(offset: string, post: string)
    requires |offset| > 0 && AllIn(offset, Digit)
    requires post == [] || !IsDigit(post[0])
    ensures MatchPrefix(BinlogPositionField, "BinLogPosition: " + offset + post)
         == Some(Hit(16 + |offset|, 16, 16 + |offset|))
  {
    assert "BinLogPosition" + ": " + offset + post == "BinLogPosition: " + offset + post;
    assert In(offset[0], Digit);
    LabelColonRunOn("BinLogPosition", offset, post, Digit);
  }
}
