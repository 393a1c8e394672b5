/** Putting a checkpoint position into an exported TQL document
    (update_tql_with_position): MySQL and SQL Server sources carry a
    `'NOW'` placeholder that is replaced; MongoDB and Oracle sources get their
    start field rewritten, or inserted before the closing parenthesis of the
    source's property list when they have none. */
module Patcher {
  import opened Text
  import opened Matching
  import opened Patterns
  import opened Fields
  import opened Readers
  import opened Locality

  /** What the rewriter does to the file: leaves it alone, or writes new text.
      The source reports `True` exactly in the second case. */
  datatype Outcome = Unchanged | Written(text: string)

  /** The source property each family's start position goes into. */
  function FieldOf(family: Family): (f: string)
    ensures FieldName(f)
  {
    match family
    case MySql => "StartTimestamp"
    case SqlServer => "StartPosition"
    case MongoDb => "startTimestamp"
    case Oracle => "startSCN"
  }

  /** The source clause a field is inserted into, for the families that insert. */
  function AnchorOf(family: Family): (p: Pattern)
    ensures p.SourceClause?
  {
    match family
    case Oracle => SourceClause(["OracleReader", "OJet"], true)
    case _ => SourceClause(["MongoDBReader"], false)
  }

  predicate UsesPlaceholder(family: Family) {
    family == MySql || family == SqlServer
  }

  /** `, \n  <field>: '<value>'`: the property put before the closing parenthesis. */
  function Insertion(field: string, value: string): (ins: string)
    ensures |ins| == |FieldText(field, value)| + 5
    ensures ins[5..] == FieldText(field, value)
  {
    ", \n  " + FieldText(field, value)
  }

  /** Where group 1 of the leftmost match ends, if there is a match. */
  function GroupEndOf(m: Matcher, doc: string): (a: Option<nat>)
    requires Sound(m)
    ensures a.Some? <==> SearchFrom(m, doc, 0).Some?
    ensures a.Some? ==> SearchFrom(m, doc, 0).value <= a.value <= |doc|
  {
    match SearchFrom(m, doc, 0)
    case None => None
    case Some(q) =>
      assert Fits(m(doc[q..]), doc[q..]);
      Some(q + m(doc[q..]).value.groupEnd)
  }

  /** `ins` put where group 1 of the leftmost match ends; the text is left as
      it is without a match. */
  function Splice(m: Matcher, doc: string, ins: string): (r: string)
    requires Sound(m)
    ensures GroupEndOf(m, doc).None? ==> r == doc
    ensures GroupEndOf(m, doc).Some? ==>
      var a := GroupEndOf(m, doc).value;
      |r| == |doc| + |ins| && r[..a] == doc[..a] && r[a..a + |ins|] == ins && r[a + |ins|..] == doc[a..]
  {
    match GroupEndOf(m, doc)
    case None => doc
    case Some(a) => doc[..a] + ins + doc[a..]
  }

  /** The splice as `re.sub` does it with a replacement built from the leftmost
      match: every match is replaced by that one match with `ins` put where its
      group 1 ends. */
  function SubRebuilt(m: Matcher, doc: string, ins: string): string
    requires Sound(m)
  {
    match SearchFrom(m, doc, 0)
    case None => doc
    case Some(q) =>
      var t := doc[q..];
      var h := m(t).value;
      assert Fits(m(t), t);
      SubAllFrom(m, doc, 0, t[..h.groupEnd] + ins + t[h.groupEnd..h.end])
  }

  /** With a single match the two agree. */
  lemma SubRebuiltSingle(m: Matcher, doc: string, ins: string)
    requires Sound(m) && SearchFrom(m, doc, 0).Some?
    requires SearchFrom(m, doc, MatchEnd(m, doc, SearchFrom(m, doc, 0).value)).None?
    ensures SubRebuilt(m, doc, ins) == Splice(m, doc, ins)
  {
    var q := SearchFrom(m, doc, 0).value;
    var t := doc[q..];
    var h := m(t).value;
    assert Fits(m(t), t);
    var repl := t[..h.groupEnd] + ins + t[h.groupEnd..h.end];
    var e := MatchEnd(m, doc, q);
    SubAllSingle(m, doc, q, repl);
    RebuiltInPlace(doc, q, h.groupEnd, h.end, ins);
  }

  /** Rebuilding the text matched at q with `ins` at offset g is the splice at q + g. */
  lemma RebuiltInPlace(doc: string, q: nat, g: nat, e: nat, ins: string)
    requires g <= e && q + e <= |doc|
    ensures doc[..q] + (doc[q..][..g] + ins + doc[q..][g..e]) + doc[q + e..]
      == doc[..q + g] + ins + doc[q + g..]
  {
    var t := doc[q..];
    assert t[..g] == doc[q..q + g] && t[g..e] == doc[q + g..q + e];
    assert doc[..q] + doc[q..q + g] == doc[..q + g];
    assert doc[q + g..q + e] + doc[q + e..] == doc[q + g..];
  }

  /** Where the property list of the first matching source clause ends: the
      position of its closing parenthesis. */
  function SplitPoint(anchor: Pattern, doc: string): (a: Option<nat>)
    requires anchor.SourceClause?
    ensures a.Some? <==> Search(anchor, doc).Some?
    ensures a.Some? ==> a.value < |doc| && doc[a.value] == ')'
  {
    var a := GroupEndOf(MatcherOf(anchor), doc);
    if a.Some? then
      var q := Search(anchor, doc).value;
      assert MatchPrefix(anchor, doc[q..]).value.groupEnd < |doc[q..]|;
      assert doc[a.value] == doc[q..][MatchPrefix(anchor, doc[q..]).value.groupEnd];
      a
    else a
  }

  /** The property inserted into the first matching source clause, just before
      its closing parenthesis; the document is left as it is without one. */
  function Insert(doc: string, anchor: Pattern, field: string, value: string): (r: string)
    requires anchor.SourceClause?
    ensures SplitPoint(anchor, doc).None? ==> r == doc
    ensures SplitPoint(anchor, doc).Some? ==>
      var a := SplitPoint(anchor, doc).value;
      |r| == |doc| + |Insertion(field, value)|
      && r[..a] == doc[..a] && r[a..a + |Insertion(field, value)|] == Insertion(field, value)
      && r[a + |Insertion(field, value)|..] == doc[a..]
  {
    Splice(MatcherOf(anchor), doc, Insertion(field, value))
  }

  /** The insertion as the source writes it: the clause found first is rebuilt
      with the property, and `re.sub` then puts that rebuilt clause in place of
      every matching clause. */
  function InsertAsWritten(doc: string, anchor: Pattern, field: string, value: string): string {
    SubRebuilt(MatcherOf(anchor), doc, Insertion(field, value))
  }

  /** Every position the field's quoted value has is set to `value`; without
      one, the field is inserted. */
  function SetOrInsert(doc: string, family: Family, value: string): string {
    var f := FieldOf(family);
    if Search(QuotedField(f), doc).Some? then SubAll(QuotedField(f), doc, FieldText(f, value))
    else Insert(doc, AnchorOf(family), f, value)
  }

  /** The text the rewriter arrives at for a source of `family`. */
  function Rewrite(doc: string, family: Family, value: string): string {
    if UsesPlaceholder(family) then
      SubAll(Placeholder(FieldOf(family)), doc, FieldText(FieldOf(family), value))
    else SetOrInsert(doc, family, value)
  }

  /** The file is written only when the text changed. */
  function Update(doc: string, family: Family, value: string): (r: Outcome)
    ensures r.Written? <==> Rewrite(doc, family, value) != doc
    ensures r.Written? ==> r.text == Rewrite(doc, family, value)
  {
    var u := Rewrite(doc, family, value);
    if u == doc then Unchanged else Written(u)
  }

  /** The text after `Update`, whether it wrote or not. */
  function After(doc: string, o: Outcome): string {
    match o
    case Unchanged => doc
    case Written(t) => t
  }

  // ---- MySQL and SQL Server: the placeholder ----

  /** A placeholder source is written exactly when it holds a placeholder. */
  lemma PlaceholderUpdate(doc: string, family: Family, value: string)
    requires UsesPlaceholder(family) && Lacks(value, '\'') && value != "NOW"
    ensures Update(doc, family, value).Written? <==> Search(Placeholder(FieldOf(family)), doc).Some?
  {
    var f := FieldOf(family);
    if Search(Placeholder(f), doc).Some? {
      PlaceholderReplaced(f, value, doc);
    } else {
      SubAllNone(MatcherOf(Placeholder(f)), doc, 0, FieldText(f, value));
      assert doc[0..] == doc;
    }
  }

  /** The first placeholder is where the position is written: nothing before it
      changes, the text after it is rewritten the same way, and when it is the
      only placeholder every other character of the document is kept. */
  lemma PlaceholderWritten(doc: string, family: Family, value: string)
    requires UsesPlaceholder(family) && Search(Placeholder(FieldOf(family)), doc).Some?
    ensures var m := MatcherOf(Placeholder(FieldOf(family)));
      var q := Search(Placeholder(FieldOf(family)), doc).value;
      var e := MatchEnd(m, doc, q);
      var w := FieldText(FieldOf(family), value);
      var r := Rewrite(doc, family, value);
      q + |w| <= |r| && r[..q] == doc[..q] && r[q..q + |w|] == w
      && r[q + |w|..] == SubAllFrom(m, doc, e, w)
      && (SearchFrom(m, doc, e).None? ==> r == doc[..q] + w + doc[e..])
  {
    var f := FieldOf(family);
    var m := MatcherOf(Placeholder(f));
    var q := Search(Placeholder(f), doc).value;
    var w := FieldText(f, value);
    SubAllFirst(m, doc, 0, q, w);
    if SearchFrom(m, doc, MatchEnd(m, doc, q)).None? {
      SubAllSingle(m, doc, q, w);
    }
  }

  /** Running the rewriter again on its own output changes nothing: no
      placeholder is left. */
  lemma PlaceholderSecondRun(doc: string, family: Family, value: string)
    requires UsesPlaceholder(family) && Lacks(value, '\'') && value != "NOW"
    requires !Contains(value, FieldOf(family) + ":")
    ensures Search(Placeholder(FieldOf(family)), Rewrite(doc, family, value)).None?
    ensures Update(After(doc, Update(doc, family, value)), family, value) == Unchanged
  {
    var f := FieldOf(family);
    assert PlaceholderName(f);
    PlaceholderRewriteFinal(f, value, doc);
  }

  // ---- MongoDB and Oracle: an existing start field ----

  /** Where the field is present, the first quoted value is overwritten with
      nothing before it changed, the text after it is rewritten the same way,
      and when it is the only one every other character is kept; the first
      value reads back as the position, and a second run changes nothing. */
  lemma ExistingFieldUpdate(doc: string, family: Family, value: string)
    requires !UsesPlaceholder(family) && Lacks(value, '\'')
    requires Search(QuotedField(FieldOf(family)), doc).Some?
    ensures var m := MatcherOf(QuotedField(FieldOf(family)));
      var q := Search(QuotedField(FieldOf(family)), doc).value;
      var e := MatchEnd(m, doc, q);
      var w := FieldText(FieldOf(family), value);
      Rewrite(doc, family, value) == doc[..q] + w + SubAllFrom(m, doc, e, w)
      && (SearchFrom(m, doc, e).None? ==> Rewrite(doc, family, value) == doc[..q] + w + doc[e..])
    ensures FindGroup(QuotedField(FieldOf(family)), After(doc, Update(doc, family, value))) == Some(value)
    ensures Update(After(doc, Update(doc, family, value)), family, value) == Unchanged
  {
    var f := FieldOf(family);
    var m := MatcherOf(QuotedField(f));
    var q := Search(QuotedField(f), doc).value;
    var w := FieldText(f, value);
    SubAllFirst(m, doc, 0, q, w);
    assert doc[0..q] == doc[..q];
    if SearchFrom(m, doc, MatchEnd(m, doc, q)).None? {
      SubAllSingle(m, doc, q, w);
    }
    QuotedReadBack(f, value, doc);
    QuotedRewriteStable(f, value, doc);
  }

  // ---- MongoDB and Oracle: inserting the start field ----

  /** Without the field, the source is written exactly when it has a matching clause. */
  lemma InsertUpdate(doc: string, family: Family, value: string)
    requires !UsesPlaceholder(family) && Search(QuotedField(FieldOf(family)), doc).None?
    ensures Update(doc, family, value).Written? <==> Search(AnchorOf(family), doc).Some?
  {
  }

  /** After the insertion the label occurs only where the field was inserted,
      when the document had no occurrence of it and the value holds none. */
  lemma LabelOnlyInserted(f: string, v: string, doc: string, a: nat, j: nat)
    requires FieldName(f) && Lacks(v, '\'') && !Contains(v, f + ":") && !Contains(doc, f + ":")
    requires a <= |doc|
    requires j <= |doc| + |Insertion(f, v)| && j != a + 5
    ensures !(f + ":" <= (doc[..a] + Insertion(f, v) + doc[a..])[j..])
  {
    var l := f + ":";
    var ins := Insertion(f, v);
    var w := FieldText(f, v);
    var r := doc[..a] + ins + doc[a..];
    assert In(f[0], Word);
    WordNotSpace(f[0]);
    if j < a {
      if j + |l| <= a {
        assert r[j..j + |l|] == doc[j..j + |l|];
        NotContainedAt(doc, l, j);
      } else {
        var k := a - j;
        assert r[j..][k] == ',';
        if k < |f| {
          assert l[k] == f[k] && In(f[k], Word);
          WordNotSpace(f[k]);
        } else {
          assert l[k] == ':';
        }
      }
    } else if j < a + 5 {
      assert r[j] == ins[j - a];
    } else if j < a + 5 + |w| {
      assert r[j..] == w[j - a - 5..] + doc[a..];
      LabelNotInside(f, v, j - a - 5, doc[a..]);
    } else {
      assert r[j..] == doc[j - |ins|..];
      NotContainedAt(doc, l, j - |ins|);
    }
  }

  /** After the insertion the inserted field is the only quoted-field match. */
  lemma OnlyInsertedMatches(f: string, v: string, doc: string, a: nat)
    requires FieldName(f) && Lacks(v, '\'') && !Contains(v, f + ":") && !Contains(doc, f + ":")
    requires a <= |doc|
    ensures var r := doc[..a] + Insertion(f, v) + doc[a..];
      (forall j :: 0 <= j <= |r| && j != a + 5 ==> !MatchesAt(MatcherOf(QuotedField(f)), r, j))
      && r[a + 5..] == FieldText(f, v) + doc[a..]
      && MatcherOf(QuotedField(f))(r[a + 5..]) == Some(Hit(|FieldText(f, v)|, |f| + 3, |f| + 3 + |v|))
  {
    NoOtherQuotedMatch(f, v, doc, a);
    InsertedQuoted(f, v, doc, a);
  }

  lemma InsertedQuoted(f: string, v: string, doc: string, a: nat)
    requires Lacks(v, '\'') && a <= |doc|
    ensures var r := doc[..a] + Insertion(f, v) + doc[a..];
      && r[a + 5..] == FieldText(f, v) + doc[a..]
      && MatcherOf(QuotedField(f))(r[a + 5..]) == Some(Hit(|FieldText(f, v)|, |f| + 3, |f| + 3 + |v|))
  {
    InsertedTail(doc, a, Insertion(f, v));
    QuotedMatchOnText(f, v, doc[a..]);
  }

  lemma QuotedMatchOnText(f: string, v: string, rest: string)
    requires Lacks(v, '\'')
    ensures MatcherOf(QuotedField(f))(FieldText(f, v) + rest) == Some(Hit(|FieldText(f, v)|, |f| + 3, |f| + 3 + |v|))
  {
    QuotedFieldOnText(f, v, rest);
  }

  lemma InsertedTail(doc: string, a: nat, ins: string)
    requires 5 <= |ins| && a <= |doc|
    ensures (doc[..a] + ins + doc[a..])[a + 5..] == ins[5..] + doc[a..]
  {
    var r := doc[..a] + ins + doc[a..];
    assert r == doc[..a] + (ins + doc[a..]);
    assert r[a..] == ins + doc[a..];
    assert r[a + 5..] == r[a..][5..];
  }

  lemma NoOtherQuotedMatch(f: string, v: string, doc: string, a: nat)
    requires FieldName(f) && Lacks(v, '\'') && !Contains(v, f + ":") && !Contains(doc, f + ":")
    requires a <= |doc|
    ensures var r := doc[..a] + Insertion(f, v) + doc[a..];
      forall j :: 0 <= j <= |r| && j != a + 5 ==> !MatchesAt(MatcherOf(QuotedField(f)), r, j)
  {
    var r := doc[..a] + Insertion(f, v) + doc[a..];
    forall j | 0 <= j <= |r| && j != a + 5 ensures !MatchesAt(MatcherOf(QuotedField(f)), r, j) {
      LabelOnlyInserted(f, v, doc, a, j);
      QuotedLabel(f, r, j);
    }
  }

  /** A document without the label holds no quoted value of the field. */
  lemma NoLabelNoField(f: string, doc: string)
    requires !Contains(doc, f + ":")
    ensures Search(QuotedField(f), doc).None?
  {
    forall j | 0 <= j <= |doc| ensures !MatchesAt(MatcherOf(QuotedField(f)), doc, j) {
      NotContainedAt(doc, f + ":", j);
      QuotedLabel(f, doc, j);
    }
  }

  /** Rewriting the inserted field changes nothing. */
  lemma InsertedStable(f: string, v: string, doc: string, a: nat)
    requires FieldName(f) && Lacks(v, '\'') && !Contains(v, f + ":") && !Contains(doc, f + ":")
    requires a <= |doc|
    ensures SubAll(QuotedField(f), doc[..a] + Insertion(f, v) + doc[a..], FieldText(f, v))
            == doc[..a] + Insertion(f, v) + doc[a..]
  {
    var r := doc[..a] + Insertion(f, v) + doc[a..];
    OnlyInsertedMatches(f, v, doc, a);
    SubAllOnlyAt(MatcherOf(QuotedField(f)), FieldText(f, v), r, a + 5, doc[a..]);
  }

  /** The inserted field reads back as the position. */
  lemma InsertedReadBack(f: string, v: string, doc: string, a: nat)
    requires FieldName(f) && Lacks(v, '\'') && !Contains(v, f + ":") && !Contains(doc, f + ":")
    requires a <= |doc|
    ensures FindGroup(QuotedField(f), doc[..a] + Insertion(f, v) + doc[a..]) == Some(v)
  {
    var r := doc[..a] + Insertion(f, v) + doc[a..];
    OnlyInsertedMatches(f, v, doc, a);
    var pre, rest := r[..a + 5], r[a + 5..];
    assert r == pre + rest;
    var m := MatcherOf(QuotedField(f));
    var h := Hit(|FieldText(f, v)|, |f| + 3, |f| + 3 + |v|);
    assert m(rest) == Some(h);
    FoundAfterBy(m, pre, rest);
    assert FindGroupBy(m, pre + rest) == Some(rest[h.groupStart..h.groupEnd]);
    assert rest[h.groupStart..h.groupEnd] == v;
    FindGroupPlain(QuotedField(f), r);
  }

  /** Where the field was absent from the document, the inserted field reads
      back as the position and a second run changes nothing. */
  lemma InsertedFieldUpdate(doc: string, family: Family, value: string)
    requires !UsesPlaceholder(family) && Lacks(value, '\'')
    requires !Contains(value, FieldOf(family) + ":") && !Contains(doc, FieldOf(family) + ":")
    ensures Search(AnchorOf(family), doc).Some? ==>
      FindGroup(QuotedField(FieldOf(family)), After(doc, Update(doc, family, value))) == Some(value)
    ensures Update(After(doc, Update(doc, family, value)), family, value) == Unchanged
  {
    var f := FieldOf(family);
    NoLabelNoField(f, doc);
    if Search(AnchorOf(family), doc).Some? {
      var a := SplitPoint(AnchorOf(family), doc).value;
      var r := doc[..a] + Insertion(f, value) + doc[a..];
      assert Rewrite(doc, family, value) == r;
      InsertedReadBack(f, value, doc, a);
      InsertedStable(f, value, doc, a);
    }
  }

  // ---- the inserted property keeps the document's family ----

  /** No `CREATE`, in any case, begins anywhere in the value. */
  predicate NoCreate(value: string) {
    forall j :: 0 <= j <= |value| ==> !PrefixIgnoreCase("CREATE", value[j..])
  }

  /** Where the pieces of the inserted property are. */
  lemma InsertionLayout(field: string, value: string)
    ensures var ins := Insertion(field, value);
      && |ins| == |field| + |value| + 9 && ins[0] == ','
      && ins[5 + |field|] == ':' && ins[7 + |field|] == '\''
      && ins[8 + |field|..8 + |field| + |value|] == value && ins[8 + |field| + |value|] == '\''
  {
    var ins := Insertion(field, value);
    var w := FieldText(field, value);
    assert w == field + ": '" + value + "'";
    assert ins[5..] == w;
    assert w[|field|] == ':' && w[|field| + 2] == '\'' && w[|field| + 3..|field| + 3 + |value|] == value;
    assert ins[5 + |field|] == w[|field|] && ins[7 + |field|] == w[|field| + 2];
    assert ins[8 + |field|..8 + |field| + |value|] == w[|field| + 3..|field| + 3 + |value|];
    assert ins[8 + |field| + |value|] == w[|field| + 3 + |value|];
  }

  /** A text whose first stopping character comes before any declaration
      could end starts no declaration. */
  lemma DeclTooShort(t: string, m: nat, reader: string)
    requires m < |t| && Stops(t[m]) && Plain(reader) && m < 29 + |reader|
    ensures SourceDeclAt(t, reader).None?
  {
    if SourceDeclAt(t, reader).Some? {
      SourceDeclShape(t, reader);
      SourceDeclBefore(t, m, reader);
      assert false;
    }
  }

  /** A text that runs as `w` up to a stopping character starts no
      declaration when no `CREATE` begins in `w`. */
  lemma DeclNeedsCreate(t: string, m: nat, w: string, reader: string)
    requires m < |t| && Stops(t[m]) && Plain(reader) && t[..m] == w && NoCreate(w)
    ensures SourceDeclAt(t, reader).None?
  {
    assert w[0..] == w;
    assert forall i :: 0 <= i < |w| ==> w[i] == t[i];
    if SourceDeclAt(t, reader).Some? {
      SourceDeclShape(t, reader);
      SourceDeclBefore(t, m, reader);
      assert false;
    }
  }

  /** No declaration starts inside an inserted property whose field name is
      short and whose value holds no `CREATE`. */
  lemma NoDeclInInsertion(n: string, a: nat, field: string, value: string, reader: string, q: nat)
    requires |field| <= 24 && NoCreate(value) && Plain(reader)
    requires a + |Insertion(field, value)| <= |n|
    requires n[a..a + |Insertion(field, value)|] == Insertion(field, value)
    requires a < q < a + |Insertion(field, value)|
    ensures SourceDeclAt(n[q..], reader).None?
  {
    var ins := Insertion(field, value);
    InsertionLayout(field, value);
    var off := q - a;
    var t := n[q..];
    assert forall k :: 0 <= k < |ins| - off ==> t[k] == ins[off + k] by {
      forall k | 0 <= k < |ins| - off ensures t[k] == ins[off + k] {
        assert t[k] == n[q + k] == n[a..a + |ins|][off + k];
      }
    }
    if off <= 5 + |field| {
      DeclTooShort(t, 5 + |field| - off, reader);
    } else if off <= 7 + |field| {
      DeclTooShort(t, 7 + |field| - off, reader);
    } else {
      var j := off - 8 - |field|;
      var m := |value| - j;
      assert t[..m] == value[j..] by {
        assert forall k :: 0 <= k < m ==> t[k] == ins[8 + |field|..8 + |field| + |value|][j + k];
      }
      assert forall i :: 0 <= i <= |value[j..]| ==> value[j..][i..] == value[j + i..];
      DeclNeedsCreate(t, m, value[j..], reader);
    }
  }

  /** Whether the document declares the reader is the same after the
      insertion. */
  lemma InsertKeepsDeclares(doc: string, anchor: Pattern, field: string, value: string, reader: string)
    requires anchor.SourceClause? && |field| <= 24 && NoCreate(value) && Plain(reader)
    ensures Declares(Insert(doc, anchor, field, value), reader) <==> Declares(doc, reader)
  {
    if SplitPoint(anchor, doc).Some? {
      var a := SplitPoint(anchor, doc).value;
      var ins := Insertion(field, value);
      var n := Insert(doc, anchor, field, value);
      InsertionLayout(field, value);
      assert n[a] == n[a..a + |ins|][0] == ins[0];
      forall q | a < q < a + |ins| ensures SourceDeclAt(n[q..], reader).None? {
        NoDeclInInsertion(n, a, field, value, reader, q);
      }
      DeclaredAcrossInsert(doc, n, a, ins, reader);
    }
  }

  lemma PlainReaders()
    ensures Plain("MysqlReader") && Plain("MSSqlReader") && Plain("MSJet")
    ensures Plain("MongoDBReader") && Plain("OracleReader") && Plain("OJet")
  {
  }

  /** The document with the start field inserted is classified as the same
      family as before, for a value in which no `CREATE` begins. */
  lemma InsertKeepsFamily(doc: string, family: Family, value: string)
    requires NoCreate(value)
    ensures Classify(Insert(doc, AnchorOf(family), FieldOf(family), value)) == Classify(doc)
  {
    var n := Insert(doc, AnchorOf(family), FieldOf(family), value);
    PlainReaders();
    InsertKeepsDeclares(doc, AnchorOf(family), FieldOf(family), value, "MysqlReader");
    InsertKeepsDeclares(doc, AnchorOf(family), FieldOf(family), value, "MSSqlReader");
    InsertKeepsDeclares(doc, AnchorOf(family), FieldOf(family), value, "MSJet");
    InsertKeepsDeclares(doc, AnchorOf(family), FieldOf(family), value, "MongoDBReader");
    InsertKeepsDeclares(doc, AnchorOf(family), FieldOf(family), value, "OracleReader");
    InsertKeepsDeclares(doc, AnchorOf(family), FieldOf(family), value, "OJet");
    TableChain(reader => Declares(doc, reader));
    TableChain(reader => Declares(n, reader));
  }

  // ---- the insertion as the source writes it ----

  /** A first match at 0 and a second at p: the source's substitution writes
      the first match, rebuilt, in place of both. */
  lemma SubRebuiltTwo(m: Matcher, doc: string, ins: string, p: nat)
    requires Sound(m) && MatchesAt(m, doc, 0)
    requires SearchFrom(m, doc, MatchEnd(m, doc, 0)) == Some(p)
    requires SearchFrom(m, doc, MatchEnd(m, doc, p)).None?
    ensures var h := m(doc[0..]).value; var rebuilt := doc[..h.groupEnd] + ins + doc[h.groupEnd..h.end];
      SubRebuilt(m, doc, ins) == rebuilt + doc[h.end..p] + rebuilt + doc[MatchEnd(m, doc, p)..]
  {
    SearchFromIs(m, doc, 0, 0);
    var h := m(doc[0..]).value;
    assert Fits(m(doc[0..]), doc[0..]);
    assert doc[0..] == doc;
    var rebuilt := doc[..h.groupEnd] + ins + doc[h.groupEnd..h.end];
    SubAllFirst(m, doc, 0, 0, rebuilt);
  }

  /** With a single matching clause the source's insertion is the splice. */
  lemma AsWrittenSingleClause(doc: string, anchor: Pattern, f: string, v: string)
    requires anchor.SourceClause? && Search(anchor, doc).Some?
    requires var m := MatcherOf(anchor);
      SearchFrom(m, doc, MatchEnd(m, doc, Search(anchor, doc).value)).None?
    ensures InsertAsWritten(doc, anchor, f, v) == Insert(doc, anchor, f, v)
  {
    SubRebuiltSingle(MatcherOf(anchor), doc, Insertion(f, v));
  }

  /** Two source clauses the anchor matches, separated by a blank: the
      source's insertion writes the first clause, rebuilt with the property, in
      place of both, so the second source is lost and the first is declared
      twice; the splice changes the first clause only. */
  lemma AsWrittenCopiesFirstClause(doc: string, c: nat, g: nat, f: string, v: string)
    requires c < |doc| && doc[c] == ' '
    requires var m := MatcherOf(AnchorOf(MongoDb));
      && m(doc) == Some(Hit(c, 0, g)) && m(doc[c..]).None?
      && m(doc[c + 1..]).Some? && m(doc[c + 1..]).value.end == |doc| - (c + 1)
      && m("").None?
    ensures var rebuilt := doc[..g] + Insertion(f, v) + doc[g..c];
      InsertAsWritten(doc, AnchorOf(MongoDb), f, v) == rebuilt + " " + rebuilt
      && Insert(doc, AnchorOf(MongoDb), f, v) == rebuilt + doc[c..]
  {
    TwoMatchesRebuilt(MatcherOf(AnchorOf(MongoDb)), doc, Insertion(f, v), c, g);
  }

  /** A MongoDB clause followed by a blank: the anchor matches it whole, and
      nothing matches at the blank. */
  lemma FirstClauseMatches(doc: string, k: nat, n: nat)
    requires MongoPieces(doc, k, n) && 50 + k + n <= |doc| && doc[49 + k + n] == ' '
    ensures var m := MatcherOf(AnchorOf(MongoDb));
      m(doc) == Some(Hit(49 + k + n, 0, 42 + k + n)) && m(doc[49 + k + n..]).None?
  {
    MongoAnchorMatches(doc, k, n);
    MongoAnchorBlank(doc[49 + k + n..]);
  }

  /** The MongoDB anchor matches a clause whole. */
  lemma MongoAnchorMatches(t: string, k: nat, n: nat)
    requires MongoPieces(t, k, n)
    ensures MatcherOf(AnchorOf(MongoDb))(t) == Some(Hit(49 + k + n, 0, 42 + k + n))
  {
    var p := SourceClause(["MongoDBReader"], false);
    assert AnchorOf(MongoDb) == p;
    MongoClauseOn(t, k, n);
    assert MatchPrefix(p, t) == Some(Hit(49 + k + n, 0, 42 + k + n));
  }

  /** No MongoDB clause starts at a blank or at the end of the text. */
  lemma MongoAnchorBlank(t: string)
    requires |t| == 0 || t[0] == ' '
    ensures MatcherOf(AnchorOf(MongoDb))(t).None?
  {
    NoClauseAtBlank(t, ["MongoDBReader"], false);
  }

  /** A match at 0 up to c, a blank, and a match from c + 1 to the end: the
      source's substitution writes the first match, rebuilt, in place of both. */
  lemma TwoMatchesRebuilt(m: Matcher, doc: string, ins: string, c: nat, g: nat)
    requires Sound(m) && c < |doc| && doc[c] == ' '
    requires m(doc) == Some(Hit(c, 0, g)) && m(doc[c..]).None?
    requires m(doc[c + 1..]).Some? && m(doc[c + 1..]).value.end == |doc| - (c + 1)
    requires m("").None?
    ensures var rebuilt := doc[..g] + ins + doc[g..c];
      SubRebuilt(m, doc, ins) == rebuilt + " " + rebuilt
      && Splice(m, doc, ins) == rebuilt + doc[c..]
  {
    assert doc[0..] == doc;
    assert MatchEnd(m, doc, 0) == c;
    assert !MatchesAt(m, doc, c);
    assert MatchEnd(m, doc, c + 1) == |doc|;
    SearchFromIs(m, doc, c, c + 1);
    assert doc[|doc|..] == "";
    assert !MatchesAt(m, doc, |doc|);
    assert SearchFrom(m, doc, |doc|).None?;
    SubRebuiltTwo(m, doc, ins, c + 1);
    assert doc[c..c + 1] == " " && doc[|doc|..] == [];
    SearchFromIs(m, doc, 0, 0);
    assert doc[g..] == doc[g..c] + doc[c..];
  }

  /** The input that shows it: sources `a` and `b`, each without a start
      timestamp. */
  const FirstClause := MongoClauseText("a", "x")
  const SecondClause := MongoClauseText("b", "y")

  lemma TwoSourcesFit()
    ensures var doc := FirstClause + (" " + SecondClause);
      MongoPieces(doc, 1, 1) && |doc| == 103 && doc[51] == ' '
      && MongoPieces(doc[52..], 1, 1) && doc[14] == 'a' && doc[52 + 14] == 'b'
  {
    var doc := FirstClause + (" " + SecondClause);
    ClausePieces(doc, "a", "x", " " + SecondClause);
    assert doc[51..] == " " + SecondClause;
    assert doc[52..] == SecondClause + "";
    ClausePieces(doc[52..], "b", "y", "");
    assert doc[14] == doc[14..15][0];
    assert doc[52 + 14] == doc[52..][14..15][0];
  }

  /** The anchor matches both clauses and nothing at the blank between them
      or at the end. */
  lemma TwoSourcesMatch()
    ensures var doc := FirstClause + (" " + SecondClause); var m := MatcherOf(AnchorOf(MongoDb));
      && |doc| == 103 && doc[51] == ' ' && doc[14] == 'a' && doc[66] == 'b'
      && m(doc) == Some(Hit(51, 0, 44)) && m(doc[51..]).None?
      && m(doc[52..]) == Some(Hit(51, 0, 44)) && m("").None?
  {
    var doc := FirstClause + (" " + SecondClause);
    TwoSourcesFit();
    FirstClauseMatches(doc, 1, 1);
    MongoAnchorMatches(doc[52..], 1, 1);
    MongoAnchorBlank("");
  }

  /** On those two sources the source's insertion and the splice differ. */
  lemma AsWrittenLosesSecondSource()
    ensures var doc := FirstClause + (" " + SecondClause);
      InsertAsWritten(doc, AnchorOf(MongoDb), "startTimestamp", "T")
        != Insert(doc, AnchorOf(MongoDb), "startTimestamp", "T")
  {
    TwoSourcesMatch();
    AsWrittenDiffers(FirstClause + (" " + SecondClause), "startTimestamp", "T");
  }

  /** Two clauses whose names differ in their first character: the source's
      insertion and the splice give different documents. */
  lemma AsWrittenDiffers(doc: string, f: string, v: string)
    requires |doc| == 103 && doc[51] == ' ' && doc[14] == 'a' && doc[66] == 'b'
    requires var m := MatcherOf(AnchorOf(MongoDb));
      && m(doc) == Some(Hit(51, 0, 44)) && m(doc[51..]).None?
      && m(doc[52..]) == Some(Hit(51, 0, 44)) && m("").None?
    ensures InsertAsWritten(doc, AnchorOf(MongoDb), f, v) != Insert(doc, AnchorOf(MongoDb), f, v)
  {
    AsWrittenCopiesFirstClause(doc, 51, 44, f, v);
    var rebuilt := doc[..44] + Insertion(f, v) + doc[44..51];
    assert rebuilt[14] == doc[14];
    CopyDiffers(rebuilt, doc[51..]);
  }

  lemma CopyDiffers(rebuilt: string, tail: string)
    requires 15 <= |rebuilt| && 16 <= |tail| && rebuilt[14] == 'a' && tail[15] == 'b'
    ensures rebuilt + " " + rebuilt != rebuilt + tail
  {
    var k := |rebuilt| + 15;
    assert (rebuilt + " " + rebuilt)[k] == 'a';
    assert (rebuilt + tail)[k] == 'b';
  }
}
