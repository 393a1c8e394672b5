/** The handful of regular expressions the scripts use, each written out as a
    matcher that tries to match at the START of a string `t` (a suffix of the
    searched text), and the pattern-level forms of `re.search`, group
    extraction and `re.sub`.

    Every greedy run below is followed by a character outside its class, so
    Python's backtracking cannot change the outcome; the two places where it
    can choose (the optional `OR REPLACE` group and the `(?:OracleReader|OJet)`
    alternation) are tried in the order the engine tries them. */
module Patterns {
  import opened Text
  import opened Matching

  datatype Pattern =
    | BinlogNameField                 // BinlogName\s*:\s*([^\s\n]+)
    | BinlogPositionField             // BinLogPosition\s*:\s*(\d+)
    | CommitLsnField                  // CommitScn:\s*([A-Fa-f0-9]+)
    | UtcDateTimeField                // UTC DateTime value = ([^]]+)
    | CommitScnField                  // CommitSCN\[(\d+)\]
    | SourceDecl(reader: string)      // CREATE\s+(?:OR\s+REPLACE\s+)?SOURCE\s+\w+\s+USING\s+Global\.<reader>, IGNORECASE
    | SourceClause(readers: seq<string>, orReplace: bool)
                                      // (CREATE\s+[OR\s+REPLACE\s+]SOURCE\s+\w+\s+USING\s+Global\.(?:r1|r2)\s*\([^)]+)(\s*\)\s*OUTPUT), IGNORECASE
    | Placeholder(field: string)      // <field>:\s*'NOW'
    | QuotedField(field: string)      // <field>:\s*'[^']*'
    | CreateApplication               // CREATE\s+APPLICATION\s+(\w+), IGNORECASE

  // ---- building blocks, on an index into t ----

  function Lit(t: string, i: nat, lit: string): (r: Option<nat>)
    ensures r.Some? <==> i <= |t| && lit <= t[i..]
    ensures r.Some? ==> r.value == i + |lit| <= |t|
  {
    if i <= |t| && lit <= t[i..] then Some(i + |lit|) else None
  }

  function LitIgnoreCase(t: string, i: nat, lit: string): (r: Option<nat>)
    ensures r.Some? <==> i <= |t| && PrefixIgnoreCase(lit, t[i..])
    ensures r.Some? ==> r.value == i + |lit| <= |t|
  {
    if i <= |t| && PrefixIgnoreCase(lit, t[i..]) then Some(i + |lit|) else None
  }

  /** `k*` at i. */
  function Run(t: string, i: nat, k: CharClass): (j: nat)
    requires i <= |t|
    ensures i <= j <= |t|
    ensures AllIn(t[i..j], k)
    ensures j < |t| ==> !In(t[j], k)
  {
    var n := Span(t[i..], k);
    assert t[i..][..n] == t[i..i + n];
    i + n
  }

  /** A run is decided by the characters it covers and the one that stops it. */
  lemma RunIs(t: string, i: nat, k: CharClass, j: nat)
    requires i <= j <= |t| && AllIn(t[i..j], k)
    requires j < |t| ==> !In(t[j], k)
    ensures Run(t, i, k) == j
  {
    assert t[i..][..j - i] == t[i..j];
    SpanOfAllIn(t[i..], k, j - i);
  }

  /** `k+` at i. */
  function Run1(t: string, i: nat, k: CharClass): (r: Option<nat>)
    ensures r.Some? ==> i < r.value <= |t| && r.value == Run(t, i, k)
    ensures r.None? ==> i > |t| || Run(t, i, k) == i
  {
    if i <= |t| && Run(t, i, k) > i then Some(Run(t, i, k)) else None
  }

  /** A literal present with the same case matches case-insensitively too. */
  lemma LitIgnoreCaseExact(t: string, i: nat, lit: string)
    requires i + |lit| <= |t| && t[i..i + |lit|] == lit
    ensures LitIgnoreCase(t, i, lit) == Some(i + |lit|)
  {
    assert forall j :: 0 <= j < |lit| ==> t[i..][j] == t[i..i + |lit|][j];
  }

  lemma Run1Is(t: string, i: nat, k: CharClass, j: nat)
    requires i < j <= |t| && AllIn(t[i..j], k)
    requires j < |t| ==> !In(t[j], k)
    ensures Run1(t, i, k) == Some(j)
  {
    RunIs(t, i, k, j);
  }

  // ---- the patterns ----

  /** `<tag>\s*:\s*(k+)` */
  function LabelColonRun(t: string, tag: string, k: CharClass): (r: Option<Hit>)
    requires |tag| > 0
    ensures Fits(r, t)
    ensures r.Some? ==> GroupRun(r.value, t, k) && r.value.groupEnd == r.value.end
  {
    var a :- Lit(t, 0, tag);
    var b := Run(t, a, Space);
    var c :- Lit(t, b, ":");
    var d := Run(t, c, Space);
    var e :- Run1(t, d, k);
    Some(Hit(e, d, e))
  }

  /** `CREATE\s+` */
  function CreateHead(t: string): (r: Option<nat>)
    ensures r.Some? ==> 6 < r.value <= |t|
  {
    var a :- LitIgnoreCase(t, 0, "CREATE");
    Run1(t, a, Space)
  }

  /** `OR\s+REPLACE\s+` at i. */
  function OrReplace(t: string, i: nat): (r: Option<nat>)
    ensures r.Some? ==> i < r.value <= |t|
  {
    var a :- LitIgnoreCase(t, i, "OR");
    var b :- Run1(t, a, Space);
    var c :- LitIgnoreCase(t, b, "REPLACE");
    Run1(t, c, Space)
  }

  /** `SOURCE\s+\w+\s+USING\s+Global\.<reader>` at i. */
  function SourceHead(t: string, i: nat, reader: string): (r: Option<nat>)
    ensures r.Some? ==> i < r.value <= |t|
  {
    var a :- LitIgnoreCase(t, i, "SOURCE");
    var b :- Run1(t, a, Space);
    var c :- Run1(t, b, Word);
    var d :- Run1(t, c, Space);
    var e :- LitIgnoreCase(t, d, "USING");
    var f :- Run1(t, e, Space);
    var g :- LitIgnoreCase(t, f, "Global.");
    LitIgnoreCase(t, g, reader)
  }

  /** The source declaration: the optional group is tried first, then skipped. */
  function SourceDeclAt(t: string, reader: string): (r: Option<Hit>)
    ensures Fits(r, t)
  {
    var b :- CreateHead(t);
    var viaGroup := match OrReplace(t, b)
      case Some(c) => SourceHead(t, c, reader)
      case None => None;
    var e :- if viaGroup.Some? then viaGroup else SourceHead(t, b, reader);
    Some(Hit(e, 0, e))
  }

  /** `\s*\(([^)]+)\)\s*OUTPUT` at i: group 1 of the clause pattern ends at the
      first `)` after the `(`, because `[^)]+` is greedy. */
  function ClauseBody(t: string, i: nat): (r: Option<Hit>)
    requires i <= |t|
    ensures r.Some? ==> r.value.groupStart == 0 && i < r.value.groupEnd < r.value.end <= |t|
    ensures r.Some? ==> t[r.value.groupEnd] == ')'
  {
    var a := Run(t, i, Space);
    var b :- Lit(t, a, "(");
    var c :- Run1(t, b, NoneOf(')'));
    var d :- Lit(t, c, ")");
    var e := Run(t, d, Space);
    var f :- LitIgnoreCase(t, e, "OUTPUT");
    Some(Hit(f, 0, c))
  }

  /** The rest of the clause from `SOURCE`, trying the readers in order. */
  function ClauseTail(t: string, i: nat, readers: seq<string>): (r: Option<Hit>)
    decreases |readers|
    ensures r.Some? ==> r.value.groupStart == 0 && i < r.value.groupEnd < r.value.end <= |t|
    ensures r.Some? ==> t[r.value.groupEnd] == ')'
  {
    if readers == [] then None
    else
      var viaFirst := match SourceHead(t, i, readers[0])
        case Some(h) => ClauseBody(t, h)
        case None => None;
      if viaFirst.Some? then viaFirst else ClauseTail(t, i, readers[1..])
  }

  function SourceClauseAt(t: string, readers: seq<string>, orReplace: bool): (r: Option<Hit>)
    ensures Fits(r, t)
    ensures r.Some? ==> r.value.groupStart == 0 && 0 < r.value.groupEnd < r.value.end
    ensures r.Some? ==> t[r.value.groupEnd] == ')'
  {
    var b :- CreateHead(t);
    var viaGroup := if !orReplace then None else match OrReplace(t, b)
      case Some(c) => ClauseTail(t, c, readers)
      case None => None;
    if viaGroup.Some? then viaGroup else ClauseTail(t, b, readers)
  }

  /** `<field>:\s*'NOW'` */
  function PlaceholderAt(t: string, field: string): (r: Option<Hit>)
    ensures Fits(r, t)
  {
    var a :- Lit(t, 0, field + ":");
    var b := Run(t, a, Space);
    var c :- Lit(t, b, "'NOW'");
    Some(Hit(c, 0, c))
  }

  /** `<field>:\s*'([^']*)'` (the group marks the quoted value). */
  function QuotedFieldAt(t: string, field: string): (r: Option<Hit>)
    ensures Fits(r, t)
  {
    var a :- Lit(t, 0, field + ":");
    var b := Run(t, a, Space);
    var c :- Lit(t, b, "'");
    var d := Run(t, c, NoneOf('\''));
    var e :- Lit(t, d, "'");
    Some(Hit(e, c, d))
  }

  function LsnAt(t: string): (r: Option<Hit>)
    ensures Fits(r, t)
    ensures r.Some? ==> GroupRun(r.value, t, HexDigit) && r.value.groupEnd == r.value.end
  {
    var a :- Lit(t, 0, "CommitScn:");
    var d := Run(t, a, Space);
    var e :- Run1(t, d, HexDigit);
    Some(Hit(e, d, e))
  }

  function UtcDateTimeAt(t: string): (r: Option<Hit>)
    ensures Fits(r, t)
    ensures r.Some? ==> GroupRun(r.value, t, NoneOf(']')) && r.value.groupEnd == r.value.end
  {
    var a :- Lit(t, 0, "UTC DateTime value = ");
    var e :- Run1(t, a, NoneOf(']'));
    Some(Hit(e, a, e))
  }

  function CommitScnAt(t: string): (r: Option<Hit>)
    ensures Fits(r, t)
    ensures r.Some? ==> GroupRun(r.value, t, Digit) && r.value.groupEnd < r.value.end && t[r.value.groupEnd] == ']'
  {
    var a :- Lit(t, 0, "CommitSCN[");
    var e :- Run1(t, a, Digit);
    var f :- Lit(t, e, "]");
    Some(Hit(f, a, e))
  }

  function CreateApplicationAt(t: string): (r: Option<Hit>)
    ensures Fits(r, t)
    ensures r.Some? ==> GroupRun(r.value, t, Word) && r.value.groupEnd == r.value.end
  {
    var a :- CreateHead(t);
    var b :- LitIgnoreCase(t, a, "APPLICATION");
    var c :- Run1(t, b, Space);
    var d :- Run1(t, c, Word);
    Some(Hit(d, c, d))
  }

  /** The group is a non-empty greedy run of `k`: it cannot be extended. */
  predicate GroupRun(h: Hit, t: string, k: CharClass) {
    h.groupStart < h.groupEnd <= |t| && AllIn(t[h.groupStart..h.groupEnd], k)
    && (h.groupEnd < |t| ==> !In(t[h.groupEnd], k))
  }

  function MatchPrefix(p: Pattern, t: string): (r: Option<Hit>)
    ensures Fits(r, t)
  {
    match p
    case BinlogNameField => LabelColonRun(t, "BinlogName", NonSpace)
    case BinlogPositionField => LabelColonRun(t, "BinLogPosition", Digit)
    case CommitLsnField => LsnAt(t)
    case UtcDateTimeField => UtcDateTimeAt(t)
    case CommitScnField => CommitScnAt(t)
    case SourceDecl(reader) => SourceDeclAt(t, reader)
    case SourceClause(readers, orReplace) => SourceClauseAt(t, readers, orReplace)
    case Placeholder(field) => PlaceholderAt(t, field)
    case QuotedField(field) => QuotedFieldAt(t, field)
    case CreateApplication => CreateApplicationAt(t)
  }

  function MatcherOf(p: Pattern): (m: Matcher)
    ensures Sound(m)
    ensures forall t :: m(t) == MatchPrefix(p, t)
  {
    t => MatchPrefix(p, t)
  }

  /** `re.search(p, s)`: the leftmost position at which `p` matches. */
  function Search(p: Pattern, s: string): Option<nat> {
    SearchFrom(MatcherOf(p), s, 0)
  }

  /** The character class of which group 1 of a label pattern is a greedy
      non-empty run. */
  function GroupClass(p: Pattern): Option<CharClass> {
    match p
    case BinlogNameField => Some(NonSpace)
    case BinlogPositionField => Some(Digit)
    case CommitLsnField => Some(HexDigit)
    case UtcDateTimeField => Some(NoneOf(']'))
    case CommitScnField => Some(Digit)
    case CreateApplication => Some(Word)
    case _ => None
  }

  /** The text of group 1 of the leftmost match, if there is one. */
  function FindGroup(p: Pattern, s: string): (r: Option<string>)
    ensures r.Some? <==> Search(p, s).Some?
    ensures r.Some? && GroupClass(p).Some? ==> |r.value| > 0 && AllIn(r.value, GroupClass(p).value)
  {
    var r := FindGroupBy(MatcherOf(p), s);
    if r.Some? && GroupClass(p).Some? then
      var q := Search(p, s).value;
      GroupRunOf(p, s[q..]);
      assert r.value == s[q..][MatchPrefix(p, s[q..]).value.groupStart..MatchPrefix(p, s[q..]).value.groupEnd];
      r
    else r
  }

  /** Patterns without a class for their group report it as the matcher finds it. */
  lemma FindGroupPlain(p: Pattern, s: string)
    requires GroupClass(p).None?
    ensures FindGroup(p, s) == FindGroupBy(MatcherOf(p), s)
  {
  }

  lemma GroupRunOf(p: Pattern, t: string)
    requires MatchPrefix(p, t).Some? && GroupClass(p).Some?
    ensures GroupRun(MatchPrefix(p, t).value, t, GroupClass(p).value)
  {
  }

  /** The literal every match of a pattern starts with (empty where the
      pattern starts case-insensitively). */
  function Lead(p: Pattern): string {
    match p
    case BinlogNameField => "BinlogName"
    case BinlogPositionField => "BinLogPosition"
    case CommitLsnField => "CommitScn:"
    case UtcDateTimeField => "UTC DateTime value = "
    case CommitScnField => "CommitSCN["
    case Placeholder(field) => field + ":"
    case QuotedField(field) => field + ":"
    case _ => ""
  }

  lemma LeadPrefix(p: Pattern, t: string)
    requires MatchPrefix(p, t).Some?
    ensures Lead(p) <= t
  {
  }

  /** A text missing one of the characters of a pattern's lead has no match. */
  lemma {:induction false} AbsentLead(p: Pattern, s: string, k: nat)
    requires k < |Lead(p)|
    requires Lacks(s, Lead(p)[k])
    ensures Search(p, s).None?
  {
    var r := Search(p, s);
    if r.Some? {
      var q := r.value;
      LeadPrefix(p, s[q..]);
    }
  }

  /** No match starts inside `pre` when character `k` of the pattern's lead is
      missing from `pre` and from the first `k` characters of what follows. */
  lemma NoLeadBefore(p: Pattern, pre: string, rest: string, k: nat)
    requires k < |Lead(p)| && k < |rest|
    requires Lacks(pre, Lead(p)[k]) && Lacks(rest[..k], Lead(p)[k])
    ensures forall j :: 0 <= j < |pre| ==> !MatchesAt(MatcherOf(p), pre + rest, j)
  {
    var s := pre + rest;
    var q := |pre|;
    forall j | 0 <= j < q ensures !MatchesAt(MatcherOf(p), s, j) {
      if j + k < q {
        assert s[j + k] == pre[j + k];
      } else {
        assert s[j + k] == rest[..k][j + k - q];
      }
      assert s[j + k] != Lead(p)[k];
      if MatchesAt(MatcherOf(p), s, j) {
        LeadPrefix(p, s[j..]);
      }
    }
  }

  /** With no match before `rest` and one at its start, the group is read off `rest`. */
  lemma FoundAfter(p: Pattern, pre: string, rest: string, gs: nat, ge: nat)
    requires MatchPrefix(p, rest).Some?
    requires MatchPrefix(p, rest).value.groupStart == gs && MatchPrefix(p, rest).value.groupEnd == ge
    requires forall j :: 0 <= j < |pre| ==> !MatchesAt(MatcherOf(p), pre + rest, j)
    ensures FindGroup(p, pre + rest) == Some(rest[gs..ge])
  {
    FoundAfterBy(MatcherOf(p), pre, rest);
  }

  /** `<tag>: <v>` where `v` is a maximal run of `k`. */
  lemma LabelColonRunOn(tag: string, v: string, rest: string, k: CharClass)
    requires |tag| > 0 && |v| > 0 && AllIn(v, k) && !IsSpace(v[0])
    requires rest == [] || !In(rest[0], k)
    ensures var n := |tag| + 2;
      LabelColonRun(tag + ": " + v + rest, tag, k) == Some(Hit(n + |v|, n, n + |v|))
  {
    var t := tag + ": " + v + rest;
    var n := |tag| + 2;
    assert tag <= t && t[|tag|] == ':' && t[|tag| + 1] == ' ' && t[n] == v[0];
    assert t[n..n + |v|] == v;
    assert n + |v| < |t| ==> t[n + |v|] == rest[0];
    LabelColonSteps(t, tag, n + |v|, k);
  }

  lemma LabelColonSteps(t: string, tag: string, e: nat, k: CharClass)
    requires |tag| > 0 && |tag| + 2 < e <= |t| && tag <= t
    requires t[|tag|] == ':' && t[|tag| + 1] == ' ' && !IsSpace(t[|tag| + 2])
    requires AllIn(t[|tag| + 2..e], k) && (e < |t| ==> !In(t[e], k))
    ensures LabelColonRun(t, tag, k) == Some(Hit(e, |tag| + 2, e))
  {
    var n := |tag| + 2;
    RunIs(t, |tag|, Space, |tag|);
    assert ":" <= t[|tag|..];
    assert t[|tag| + 1..n] == " ";
    RunIs(t, |tag| + 1, Space, n);
    RunIs(t, n, k, e);
  }

  /** `re.sub(p, repl, s)` with a replacement free of backslashes. */
  function SubAll(p: Pattern, s: string, repl: string): string {
    SubAllFrom(MatcherOf(p), s, 0, repl)
  }

  lemma SourceHeadOn(t: string, k: nat, reader: string)
    requires 0 < k && 28 + k + |reader| <= |t|
    requires t[7..14] == "SOURCE " && AllIn(t[14..14 + k], Word)
    requires t[14 + k..21 + k] == " USING " && t[21 + k..28 + k] == "Global."
    requires t[28 + k..28 + k + |reader|] == reader
    ensures SourceHead(t, 7, reader) == Some(28 + k + |reader|)
  {
    SourceNameOn(t, k);
    UsingGlobalOn(t, k);
    LitIgnoreCaseExact(t, 28 + k, reader);
  }

  /** `SOURCE\s+\w+\s+` from 7 on a clause whose name has k characters. */
  lemma SourceNameOn(t: string, k: nat)
    requires 0 < k && 21 + k <= |t|
    requires t[7..14] == "SOURCE " && AllIn(t[14..14 + k], Word)
    requires t[14 + k..21 + k] == " USING "
    ensures LitIgnoreCase(t, 7, "SOURCE") == Some(13) && Run1(t, 13, Space) == Some(14)
    ensures Run1(t, 14, Word) == Some(14 + k) && Run1(t, 14 + k, Space) == Some(15 + k)
  {
    assert t[7..13] == t[7..14][..6] == "SOURCE";
    LitIgnoreCaseExact(t, 7, "SOURCE");
    assert t[13] == ' ' && t[14] == t[14..14 + k][0];
    Run1Is(t, 13, Space, 14);
    assert t[14 + k] == t[14 + k..21 + k][0] == ' ';
    Run1Is(t, 14, Word, 14 + k);
    assert t[15 + k] == t[14 + k..21 + k][1] == 'U';
    Run1Is(t, 14 + k, Space, 15 + k);
  }

  /** `USING\s+Global\.` from 15 + k. */
  lemma UsingGlobalOn(t: string, k: nat)
    requires 28 + k <= |t|
    requires t[14 + k..21 + k] == " USING " && t[21 + k..28 + k] == "Global."
    ensures LitIgnoreCase(t, 15 + k, "USING") == Some(20 + k) && Run1(t, 20 + k, Space) == Some(21 + k)
    ensures LitIgnoreCase(t, 21 + k, "Global.") == Some(28 + k)
  {
    UsingOn(t, k);
    LitIgnoreCaseExact(t, 15 + k, "USING");
    assert t[21 + k] == t[21 + k..28 + k][0] == 'G';
    Run1Is(t, 20 + k, Space, 21 + k);
    LitIgnoreCaseExact(t, 21 + k, "Global.");
  }

  lemma UsingOn(t: string, k: nat)
    requires 21 + k <= |t| && t[14 + k..21 + k] == " USING "
    ensures t[15 + k..20 + k] == "USING" && t[20 + k] == ' '
  {
    var u := t[14 + k..21 + k];
    assert t[15 + k] == u[1] == 'U' && t[16 + k] == u[2] == 'S' && t[17 + k] == u[3] == 'I';
    assert t[18 + k] == u[4] == 'N' && t[19 + k] == u[5] == 'G' && t[20 + k] == u[6] == ' ';
  }

  lemma ClauseBodyOn(t: string, i: nat, n: nat)
    requires 0 < n && i + 8 + n <= |t|
    requires t[i] == '(' && AllIn(t[i + 1..i + 1 + n], NoneOf(')'))
    requires t[i + 1 + n..i + 8 + n] == ")OUTPUT"
    ensures ClauseBody(t, i) == Some(Hit(i + 8 + n, 0, i + 1 + n))
  {
    CloseOutputOn(t, i + 1 + n);
    OpenParenOn(t, i, n);
    ClauseBodySteps(t, i, i + 1 + n);
  }

  lemma ClauseBodySteps(t: string, i: nat, c: nat)
    requires i < c && c + 7 <= |t|
    requires Run(t, i, Space) == i && Lit(t, i, "(") == Some(i + 1)
    requires Run1(t, i + 1, NoneOf(')')) == Some(c) && Lit(t, c, ")") == Some(c + 1)
    requires Run(t, c + 1, Space) == c + 1 && LitIgnoreCase(t, c + 1, "OUTPUT") == Some(c + 7)
    ensures ClauseBody(t, i) == Some(Hit(c + 7, 0, c))
  {
  }

  /** `\s*\(` and `[^)]+` on a body of n characters. */
  lemma OpenParenOn(t: string, i: nat, n: nat)
    requires 0 < n && i + 2 + n <= |t|
    requires t[i] == '(' && AllIn(t[i + 1..i + 1 + n], NoneOf(')')) && t[i + 1 + n] == ')'
    ensures Run(t, i, Space) == i && Lit(t, i, "(") == Some(i + 1)
    ensures Run1(t, i + 1, NoneOf(')')) == Some(i + 1 + n)
  {
    RunIs(t, i, Space, i);
    assert "(" <= t[i..];
    Run1Is(t, i + 1, NoneOf(')'), i + 1 + n);
  }

  /** `\)\s*OUTPUT` at c. */
  lemma CloseOutputOn(t: string, c: nat)
    requires c + 7 <= |t| && t[c..c + 7] == ")OUTPUT"
    ensures Lit(t, c, ")") == Some(c + 1) && Run(t, c + 1, Space) == c + 1
    ensures LitIgnoreCase(t, c + 1, "OUTPUT") == Some(c + 7)
  {
    var u := t[c..c + 7];
    assert t[c] == u[0] == ')';
    assert ")" <= t[c..];
    assert t[c + 1] == u[1] == 'O' && t[c + 2] == u[2] == 'U' && t[c + 3] == u[3] == 'T';
    assert t[c + 4] == u[4] == 'P' && t[c + 5] == u[5] == 'U' && t[c + 6] == u[6] == 'T';
    assert t[c + 1..c + 7] == "OUTPUT";
    RunIs(t, c + 1, Space, c + 1);
    LitIgnoreCaseExact(t, c + 1, "OUTPUT");
  }

  /** The pieces of `CREATE SOURCE <name> USING Global.MongoDBReader(<body>)OUTPUT`
      at the start of t, for a name of k and a body of n characters. */
  predicate MongoPieces(t: string, k: nat, n: nat) {
    && 0 < k && 0 < n && 49 + k + n <= |t|
    && t[0..6] == "CREATE" && t[6] == ' ' && t[7] == 'S'
    && t[7..14] == "SOURCE " && AllIn(t[14..14 + k], Word)
    && t[14 + k..21 + k] == " USING " && t[21 + k..28 + k] == "Global."
    && t[28 + k..41 + k] == "MongoDBReader" && t[41 + k] == '('
    && AllIn(t[42 + k..42 + k + n], NoneOf(')')) && t[42 + k + n..49 + k + n] == ")OUTPUT"
  }

  /** A text that starts with `CREATE SOURCE <name> USING Global.MongoDBReader(<body>)OUTPUT`
      is matched by the MongoDB clause pattern up to the end of `OUTPUT`, its
      group 1 ending at the closing parenthesis. */
  lemma MongoClauseOn(t: string, k: nat, n: nat)
    requires MongoPieces(t, k, n)
    ensures SourceClauseAt(t, ["MongoDBReader"], false) == Some(Hit(49 + k + n, 0, 42 + k + n))
  {
    ClauseBodyOn(t, 41 + k, n);
    assert ClauseBody(t, 41 + k) == Some(Hit(49 + k + n, 0, 42 + k + n));
    CreateHeadOn(t);
    SourceHeadOn(t, k, "MongoDBReader");
    SourceClauseOne(t, 7, "MongoDBReader", 41 + k);
  }

  lemma SourceClauseOne(t: string, b: nat, reader: string, h: nat)
    requires CreateHead(t) == Some(b) && SourceHead(t, b, reader) == Some(h)
    requires h <= |t| && ClauseBody(t, h).Some?
    ensures SourceClauseAt(t, [reader], false) == ClauseBody(t, h)
  {
  }

  lemma CreateHeadOn(t: string)
    requires 8 <= |t| && t[0..6] == "CREATE" && t[6] == ' ' && t[7] == 'S'
    ensures CreateHead(t) == Some(7)
  {
    LitIgnoreCaseExact(t, 0, "CREATE");
    Run1Is(t, 6, Space, 7);
  }

  /** A MongoDB source clause with the given name and property list. */
  function MongoClauseText(name: string, body: string): string {
    "CREATE SOURCE " + name + " USING Global.MongoDBReader(" + body + ")OUTPUT"
  }

  lemma ClausePieces(t: string, name: string, body: string, rest: string)
    requires |name| > 0 && AllIn(name, Word) && |body| > 0 && Lacks(body, ')')
    requires t == MongoClauseText(name, body) + rest
    ensures |t| == 49 + |name| + |body| + |rest| && MongoPieces(t, |name|, |body|)
    ensures t[14..14 + |name|] == name
  {
    var k := |name|;
    var n := |body|;
    ClauseSplit(t, name, body, rest);
    HeadLiterals(t);
    MidLiterals(t, k);
  }

  lemma ClauseSplit(t: string, name: string, body: string, rest: string)
    requires t == MongoClauseText(name, body) + rest
    ensures |t| == 49 + |name| + |body| + |rest| && t[..14] == "CREATE SOURCE " && t[14..14 + |name|] == name
    ensures t[14 + |name|..42 + |name|] == " USING Global.MongoDBReader("
    ensures t[42 + |name|..42 + |name| + |body|] == body
    ensures t[42 + |name| + |body|..49 + |name| + |body|] == ")OUTPUT"
  {
  }

  lemma HeadLiterals(t: string)
    requires 14 <= |t| && t[..14] == "CREATE SOURCE "
    ensures t[0..6] == "CREATE" && t[6] == ' ' && t[7] == 'S' && t[7..14] == "SOURCE "
  {
    var a1, a2 := "CREATE", "SOURCE ";
    var a := a1 + " " + a2;
    assert a == "CREATE SOURCE ";
    assert a[0..6] == a1 && a[7..14] == a2;
    assert t[0..6] == a[0..6] && t[7..14] == a[7..14];
  }

  lemma MidLiterals(t: string, k: nat)
    requires 42 + k <= |t| && t[14 + k..42 + k] == " USING Global.MongoDBReader("
    ensures t[14 + k..21 + k] == " USING " && t[21 + k..28 + k] == "Global."
    ensures t[28 + k..41 + k] == "MongoDBReader" && t[41 + k] == '('
  {
    var b1, b2, b3 := " USING ", "Global.", "MongoDBReader";
    var b := b1 + b2 + b3 + "(";
    assert b == " USING Global.MongoDBReader(";
    assert b[0..7] == b1 && b[7..14] == b2 && b[14..27] == b3;
    var u := t[14 + k..42 + k];
    SliceOfSlice(t, 14 + k, 42 + k, 0, 7);
    SliceOfSlice(t, 14 + k, 42 + k, 7, 14);
    SliceOfSlice(t, 14 + k, 42 + k, 14, 27);
    assert t[41 + k] == u[27];
  }

  lemma SliceOfSlice(t: string, a: nat, b: nat, c: nat, d: nat)
    requires a <= b <= |t| && c <= d <= b - a
    ensures t[a..b][c..d] == t[a + c..a + d]
  {
    assert forall j :: 0 <= j < d - c ==> t[a..b][c..d][j] == t[a + c + j];
  }

  /** No clause starts at a blank or at the end of the text. */
  lemma NoClauseAtBlank(t: string, readers: seq<string>, orReplace: bool)
    requires |t| == 0 || t[0] == ' '
    ensures SourceClauseAt(t, readers, orReplace).None?
  {
    if |t| > 0 {
      assert ToLower(t[0]) != ToLower('C');
    }
  }
}
