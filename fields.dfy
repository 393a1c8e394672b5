/** What the two field patterns, `<field>:\s*'NOW'` and `<field>:\s*'[^']*'`,
    can and cannot match around a freshly written `<field>: '<value>'`. These
    facts carry the proofs that a second run of the rewriter changes nothing. */
module Fields {
  import opened Text
  import opened Matching
  import opened Patterns

  /** The field names the rewriter uses: word characters only. */
  predicate FieldName(f: string) {
    |f| > 0 && AllIn(f, Word)
  }

  /** A field name that cannot begin inside the literal `'NOW'`. */
  predicate PlaceholderName(f: string) {
    FieldName(f) && f[0] != 'N' && f[0] != 'O' && f[0] != 'W'
  }

  /** `<field>: '<value>'`: what every rewrite writes. */
  function FieldText(field: string, value: string): (w: string)
    ensures |w| == |field| + |value| + 4
  {
    field + ": '" + value + "'"
  }

  lemma WordNotSpace(c: char)
    requires IsWordChar(c)
    ensures !IsSpace(c) && c != '\'' && c != ':' && c != ','
  {
  }

  /** `<field>:` overlaps itself nowhere: no proper suffix of it is a prefix of it. */
  lemma LabelUnbordered(f: string, i: nat, x: string)
    requires FieldName(f) && 0 < i < |f| + 1
    ensures !(f + ":" <= (f + ":")[i..] + x)
  {
    var l := f + ":";
    var k := |l| - 1 - i;
    assert ((f + ":")[i..] + x)[k] == ':';
    assert In(f[k], Word);
    WordNotSpace(f[k]);
  }

  /** What a quoted-field match needs up to its opening quote. */
  lemma QuotedFieldOpens(t: string, f: string)
    requires QuotedFieldAt(t, f).Some?
    ensures f + ":" <= t
    ensures Run(t, |f| + 1, Space) < |t| && t[Run(t, |f| + 1, Space)] == '\''
  {
  }

  /** The label, blanks, a quote, and any later quote make a quoted-field match. */
  lemma QuotedFieldCloses(t: string, f: string, j: nat)
    requires f + ":" <= t
    requires Run(t, |f| + 1, Space) < j < |t| && t[Run(t, |f| + 1, Space)] == '\'' && t[j] == '\''
    ensures QuotedFieldAt(t, f).Some?
  {
  }

  /** A label found in `s + x`, where `x` itself starts with the label and
      `s` is not empty, lies wholly inside `s`. */
  lemma LabelInside(f: string, s: string, x: string)
    requires FieldName(f) && |s| > 0 && f + ":" <= x && f + ":" <= s + x
    ensures |f| + 1 <= |s| && f + ":" <= s
  {
    var l := f + ":";
    var n := |s|;
    if |l| > n {
      assert (s + x)[n..] == x;
      assert forall i :: 0 <= i < |l| - n ==> l[n + i] == x[i] == l[i];
      assert l <= l[n..] + x[|l| - n..];
      LabelUnbordered(f, n, x[|l| - n..]);
    }
  }

  /** Blanks after a label inside `s` stop, at the latest, where `x` starts
      with the label again. */
  lemma BlanksStopInside(f: string, s: string, x: string)
    requires FieldName(f) && f + ":" <= x && |f| + 1 <= |s|
    ensures Run(s + x, |f| + 1, Space) <= |s|
  {
    var t := s + x;
    var b := Run(t, |f| + 1, Space);
    assert t[|s|] == f[0] && In(f[0], Word);
    WordNotSpace(f[0]);
  }

  /** A quoted-field match starting in `seg` before `x`, where `x` starts with
      the label, lies wholly in `seg` up to its opening quote; so it is also a
      match before any `y` that starts with the label and holds a quote. */
  lemma QuotedCrossing(f: string, seg: string, x: string, y: string, q: nat)
    requires FieldName(f) && f + ":" <= x && f + ":" <= y && q < |seg|
    requires exists j :: 0 <= j < |y| && y[j] == '\''
    requires QuotedFieldAt((seg + x)[q..], f).Some?
    ensures QuotedFieldAt((seg + y)[q..], f).Some?
  {
    var j :| 0 <= j < |y| && y[j] == '\'';
    DropConcat(seg, x, q);
    DropConcat(seg, y, q);
    QuotedCrossingAt(f, seg[q..], x, y, j);
  }

  /** Dropping a prefix shorter than the first part of a concatenation. */
  lemma DropConcat(s: string, x: string, q: nat)
    requires q <= |s|
    ensures (s + x)[q..] == s[q..] + x
  {
  }

  lemma QuotedCrossingAt(f: string, s: string, x: string, y: string, j: nat)
    requires FieldName(f) && f + ":" <= x && f + ":" <= y && |s| > 0
    requires j < |y| && y[j] == '\''
    requires QuotedFieldAt(s + x, f).Some?
    ensures QuotedFieldAt(s + y, f).Some?
  {
    var l := f + ":";
    var n := |s|;
    var t := s + x;
    var u := s + y;
    QuotedFieldOpens(t, f);
    LabelInside(f, s, x);
    BlanksStopInside(f, s, x);
    var b := Run(t, |l|, Space);
    assert b < n by {
      assert t[n] == f[0] && In(f[0], Word);
      WordNotSpace(f[0]);
    }
    assert u[|l|..b] == t[|l|..b] && u[b] == '\'';
    RunIs(u, |l|, Space, b);
    assert u[n + j] == '\'';
    QuotedFieldCloses(u, f, n + j);
  }

  /** Written text reads back as one quoted-field match spanning exactly it. */
  lemma QuotedFieldOnText(f: string, v: string, rest: string)
    requires Lacks(v, '\'')
    ensures var w := FieldText(f, v);
      QuotedFieldAt(w + rest, f) == Some(Hit(|w|, |f| + 3, |f| + 3 + |v|))
  {
    var w := FieldText(f, v);
    var t := w + rest;
    var l := f + ":";
    BlankThenQuote(f, v, rest);
    var c := |l| + 2;
    assert t[c..c + |v|] == v && t[c + |v|] == '\'';
    RunIs(t, c, NoneOf('\''), c + |v|);
    assert "'" <= t[c + |v|..];
    QuotedFieldSteps(t, f, c + |v|);
  }

  /** A quoted-field match from its pieces: label, blanks, quote, value, quote. */
  lemma QuotedFieldSteps(t: string, f: string, d: nat)
    requires f + ":" <= t && Run(t, |f| + 1, Space) == |f| + 2 && "'" <= t[|f| + 2..]
    requires |f| + 3 <= d <= |t| && Run(t, |f| + 3, NoneOf('\'')) == d && "'" <= t[d..]
    ensures QuotedFieldAt(t, f) == Some(Hit(d + 1, |f| + 3, d))
  {
  }

  /** In written text the label is followed by one blank and the opening quote. */
  lemma BlankThenQuote(f: string, v: string, rest: string)
    ensures var t := FieldText(f, v) + rest;
      f + ":" <= t && Run(t, |f| + 1, Space) == |f| + 2 && "'" <= t[|f| + 2..]
  {
    var t := FieldText(f, v) + rest;
    var l := f + ":";
    assert l <= t;
    assert t[|l|] == ' ' && t[|l| + 1] == '\'' && t[|l|..|l| + 1] == " ";
    RunIs(t, |l|, Space, |l| + 1);
  }

  /** Written text is matched by the quoted-field pattern exactly. */
  lemma QuotedMatchesWhole(f: string, v: string)
    requires Lacks(v, '\'')
    ensures MatchesWhole(MatcherOf(QuotedField(f)), FieldText(f, v))
  {
    var m := MatcherOf(QuotedField(f));
    forall rest ensures m(FieldText(f, v) + rest).Some? && m(FieldText(f, v) + rest).value.end == |FieldText(f, v)| {
      QuotedFieldOnText(f, v, rest);
    }
  }

  /** No quoted-field match reaches from before written text into it. */
  lemma QuotedCrossingEarlier(f: string, v: string)
    requires FieldName(f)
    ensures CrossingMatchesEarlier(MatcherOf(QuotedField(f)), FieldText(f, v))
  {
    var m := MatcherOf(QuotedField(f));
    var w := FieldText(f, v);
    forall seg, x, y, q | 0 <= q < |seg| && MatchesAt(m, y, 0) && MatchesAt(m, seg + (w + x), q)
      ensures MatchesAt(m, seg + y, q)
    {
      QuotedCrossingStep(f, v, seg, x, y, q);
    }
  }

  lemma QuotedCrossingStep(f: string, v: string, seg: string, x: string, y: string, q: nat)
    requires FieldName(f) && q < |seg|
    requires MatchesAt(MatcherOf(QuotedField(f)), y, 0)
    requires MatchesAt(MatcherOf(QuotedField(f)), seg + (FieldText(f, v) + x), q)
    ensures MatchesAt(MatcherOf(QuotedField(f)), seg + y, q)
  {
    var x' := FieldText(f, v) + x;
    QuotedMatchesAt(f, y, 0);
    QuotedMatchesAt(f, seg + x', q);
    QuotedMatchesAt(f, seg + y, q);
    assert y[0..] == y;
    QuotedFieldOpens(y, f);
    assert y[Run(y, |f| + 1, Space)] == '\'';
    LabelLeads(f, v, x);
    QuotedCrossing(f, seg, x', y, q);
  }

  /** The quoted-field matcher is `QuotedFieldAt`. */
  lemma QuotedMatchesAt(f: string, s: string, q: nat)
    requires q <= |s|
    ensures MatchesAt(MatcherOf(QuotedField(f)), s, q) <==> QuotedFieldAt(s[q..], f).Some?
  {
  }

  /** Rewriting every quoted value of a field to `v` a second time changes
      nothing: each rewritten value is matched again, exactly, and replaced by
      itself, and no new match appears in front of one. */
  lemma QuotedRewriteStable(f: string, v: string, doc: string)
    requires FieldName(f) && Lacks(v, '\'')
    ensures SubAll(QuotedField(f), SubAll(QuotedField(f), doc, FieldText(f, v)), FieldText(f, v))
            == SubAll(QuotedField(f), doc, FieldText(f, v))
  {
    QuotedMatchesWhole(f, v);
    QuotedCrossingEarlier(f, v);
    SubAllStable(MatcherOf(QuotedField(f)), FieldText(f, v), doc, 0);
  }

  // ---- the placeholder pattern ----

  /** The placeholder matcher is `PlaceholderAt`. */
  lemma PlaceholderMatchesAt(f: string, s: string, q: nat)
    requires q <= |s|
    ensures MatchesAt(MatcherOf(Placeholder(f)), s, q) <==> PlaceholderAt(s[q..], f).Some?
  {
  }

  /** What a placeholder match needs. */
  lemma PlaceholderOpens(t: string, f: string)
    requires PlaceholderAt(t, f).Some?
    ensures f + ":" <= t
    ensures "'NOW'" <= t[Run(t, |f| + 1, Space)..]
  {
  }

  /** A placeholder match starting in `s` before `x`, where `x` starts with
      the label, lies wholly inside `s`, so it matches whatever follows `s`. */
  lemma PlaceholderCrossingAt(f: string, s: string, x: string, y: string)
    requires PlaceholderName(f) && f + ":" <= x && |s| > 0
    requires PlaceholderAt(s + x, f).Some?
    ensures PlaceholderAt(s + y, f).Some?
  {
    var l := f + ":";
    var n := |s|;
    var t := s + x;
    var u := s + y;
    PlaceholderOpens(t, f);
    LabelInside(f, s, x);
    BlanksStopInside(f, s, x);
    var b := Run(t, |l|, Space);
    assert t[n] == f[0] && In(f[0], Word);
    WordNotSpace(f[0]);
    assert b + 5 <= n;
    assert u[..b + 5] == t[..b + 5];
    assert u[|l|..b] == t[|l|..b] && u[b] == '\'';
    RunIs(u, |l|, Space, b);
    assert l <= u && "'NOW'" <= u[b..];
  }

  lemma PlaceholderCrossingStep(f: string, v: string, seg: string, x: string, y: string, q: nat)
    requires PlaceholderName(f) && q < |seg|
    requires MatchesAt(MatcherOf(Placeholder(f)), seg + (FieldText(f, v) + x), q)
    ensures MatchesAt(MatcherOf(Placeholder(f)), seg + y, q)
  {
    var x' := FieldText(f, v) + x;
    PlaceholderMatchesAt(f, seg + x', q);
    PlaceholderMatchesAt(f, seg + y, q);
    LabelLeads(f, v, x);
    PlaceholderCrossing(f, seg, x', y, q);
  }

  /** Written text starts with the label. */
  lemma LabelLeads(f: string, v: string, x: string)
    ensures f + ":" <= FieldText(f, v) + x
  {
    assert FieldText(f, v) + x == (f + ":") + (" '" + v + "'" + x);
  }

  lemma PlaceholderCrossing(f: string, seg: string, x: string, y: string, q: nat)
    requires PlaceholderName(f) && f + ":" <= x && q < |seg|
    requires PlaceholderAt((seg + x)[q..], f).Some?
    ensures PlaceholderAt((seg + y)[q..], f).Some?
  {
    DropConcat(seg, x, q);
    DropConcat(seg, y, q);
    PlaceholderCrossingAt(f, seg[q..], x, y);
  }

  /** No placeholder match reaches from before written text into it. */
  lemma PlaceholderCrossingEarlier(f: string, v: string)
    requires PlaceholderName(f)
    ensures CrossingMatchesEarlier(MatcherOf(Placeholder(f)), FieldText(f, v))
  {
    var m := MatcherOf(Placeholder(f));
    var w := FieldText(f, v);
    forall seg, x, y, q | 0 <= q < |seg| && MatchesAt(m, y, 0) && MatchesAt(m, seg + (w + x), q)
      ensures MatchesAt(m, seg + y, q)
    {
      PlaceholderCrossingStep(f, v, seg, x, y, q);
    }
  }

  /** Written text `<field>: '<value>'` holds no placeholder, from any of its
      positions on, when the value is free of quotes, is not `NOW` itself and
      does not hold the label. */
  lemma PlaceholderNotAt(f: string, v: string, i: nat, rest: string)
    requires PlaceholderName(f) && Lacks(v, '\'') && v != "NOW" && !Contains(v, f + ":")
    requires i < |FieldText(f, v)|
    ensures PlaceholderAt(FieldText(f, v)[i..] + rest, f).None?
  {
    var l := f + ":";
    var w := FieldText(f, v);
    var t := w[i..] + rest;
    assert t == (w + rest)[i..];
    assert In(f[0], Word);
    WordNotSpace(f[0]);
    if i == 0 {
      assert w[0..] == w;
      BlankThenQuote(f, v, rest);
      assert t[|l| + 1..] == "'" + v + "'" + rest;
      NotNowQuote(v, rest);
    } else {
      LabelNotInside(f, v, i, rest);
      assert t[0..] == t;
    }
  }

  /** The label starts nowhere inside written text but at its start, when the
      value is free of quotes and does not hold the label. */
  lemma LabelNotInside(f: string, v: string, i: nat, rest: string)
    requires FieldName(f) && Lacks(v, '\'') && !Contains(v, f + ":")
    requires 0 < i < |FieldText(f, v)|
    ensures !(f + ":" <= FieldText(f, v)[i..] + rest)
  {
    var l := f + ":";
    var w := FieldText(f, v);
    var t := w[i..] + rest;
    assert In(f[0], Word);
    WordNotSpace(f[0]);
    if i < |l| {
      if l <= t {
        assert w[..|l|] == l;
        assert l <= l[i..] + (w[|l|..] + rest);
        LabelUnbordered(f, i, w[|l|..] + rest);
      }
    } else if i < |l| + 2 {
      assert t[0] == w[i];
    } else if i < |l| + 2 + |v| {
      var j := i - |l| - 2;
      assert t == v[j..] + "'" + rest;
      if j + |l| <= |v| {
        assert t[..|l|] == v[j..][..|l|];
      } else {
        var k := |v| - j;
        assert t[k] == '\'';
        if k < |f| {
          assert l[k] == f[k] && In(f[k], Word);
          WordNotSpace(f[k]);
        } else {
          assert l[k] == ':';
        }
      }
    } else {
      assert t[0] == '\'';
    }
  }

  /** `'NOW'` cannot open a quoted value free of quotes other than `NOW`. */
  lemma NotNowQuote(v: string, rest: string)
    requires Lacks(v, '\'') && v != "NOW"
    ensures !("'NOW'" <= "'" + v + "'" + rest)
  {
    var t := "'" + v + "'" + rest;
    if |v| < 3 {
      assert t[1 + |v|] == '\'';
    } else if |v| > 3 {
      assert t[4] == v[3];
    } else {
      assert t[1..4] == v;
    }
  }

  /** No placeholder match starts inside written text. */
  lemma PlaceholderNoMatchFrom(f: string, v: string)
    requires PlaceholderName(f) && Lacks(v, '\'') && v != "NOW" && !Contains(v, f + ":")
    ensures NoMatchFrom(MatcherOf(Placeholder(f)), FieldText(f, v))
  {
    var m := MatcherOf(Placeholder(f));
    var w := FieldText(f, v);
    forall i, rest | 0 <= i < |w| ensures m(w[i..] + rest).None? {
      PlaceholderNotAt(f, v, i, rest);
    }
  }

  /** Replacing every placeholder of a field by written text leaves none
      behind, so a second replacement changes nothing. */
  lemma PlaceholderRewriteFinal(f: string, v: string, doc: string)
    requires PlaceholderName(f) && Lacks(v, '\'') && v != "NOW" && !Contains(v, f + ":")
    ensures Search(Placeholder(f), SubAll(Placeholder(f), doc, FieldText(f, v))).None?
    ensures SubAll(Placeholder(f), SubAll(Placeholder(f), doc, FieldText(f, v)), FieldText(f, v))
            == SubAll(Placeholder(f), doc, FieldText(f, v))
  {
    var m := MatcherOf(Placeholder(f));
    var w := FieldText(f, v);
    PlaceholderNoMatchFrom(f, v);
    PlaceholderCrossingEarlier(f, v);
    SubAllExhausts(m, w, doc, 0);
    var r := SubAllFrom(m, doc, 0, w);
    assert r[0..] == r;
    SubAllNone(m, r, 0, w);
  }

  /** Where a placeholder stands, written text differs from it at some
      position both cover. */
  lemma PlaceholderDiffers(f: string, v: string, t: string) returns (k: nat)
    requires PlaceholderAt(t, f).Some? && Lacks(v, '\'') && v != "NOW"
    ensures k < |FieldText(f, v)| && k < |t| && FieldText(f, v)[k] != t[k]
  {
    PlaceholderOpens(t, f);
    var l := f + ":";
    var w := FieldText(f, v);
    var b := Run(t, |l|, Space);
    assert w[|l|] == ' ' && w[|l| + 1] == '\'';
    assert w[|l| + 2..] == v + "'";
    assert t[b..b + 5] == "'NOW'";
    if b == |l| {
      k := |l|;
    } else if b > |l| + 1 {
      assert t[|l|..b][1] == t[|l| + 1];
      k := |l| + 1;
    } else if t[|l|] != ' ' {
      k := |l|;
    } else if |v| < 3 {
      k := |l| + 2 + |v|;
      assert t[k] == "NOW"[|v|];
    } else if |v| > 3 {
      k := |l| + 5;
      assert w[k] == v[3];
    } else {
      assert t[|l| + 2..|l| + 5] == "NOW";
      var d :| 0 <= d < 3 && v[d] != "NOW"[d];
      k := |l| + 2 + d;
    }
  }

  /** Replacing a placeholder that is present by a value other than `NOW`
      changes the text. */
  lemma PlaceholderReplaced(f: string, v: string, doc: string)
    requires Lacks(v, '\'') && v != "NOW" && Search(Placeholder(f), doc).Some?
    ensures SubAll(Placeholder(f), doc, FieldText(f, v)) != doc
  {
    var m := MatcherOf(Placeholder(f));
    var w := FieldText(f, v);
    var q := Search(Placeholder(f), doc).value;
    SubAllFirst(m, doc, 0, q, w);
    PlaceholderMatchesAt(f, doc, q);
    var k := PlaceholderDiffers(f, v, doc[q..]);
    var r := SubAll(Placeholder(f), doc, w);
    assert r[q + k] == w[k];
    assert doc[q + k] == doc[q..][k];
  }

  /** After every quoted value of a field is rewritten to `v`, the first one
      found reads back as `v`. */
  lemma QuotedReadBack(f: string, v: string, doc: string)
    requires FieldName(f) && Lacks(v, '\'') && Search(QuotedField(f), doc).Some?
    ensures FindGroup(QuotedField(f), SubAll(QuotedField(f), doc, FieldText(f, v))) == Some(v)
  {
    var w := FieldText(f, v);
    var gs := |f| + 3;
    QuotedMatchesWhole(f, v);
    QuotedCrossingEarlier(f, v);
    var m := MatcherOf(QuotedField(f));
    QuotedGroupEverywhere(f, v);
    FindGroupAfterSub(m, w, doc, gs, gs + |v|);
    assert w[gs..gs + |v|] == v;
    FindGroupPlain(QuotedField(f), SubAll(QuotedField(f), doc, w));
  }

  /** The field's text is matched with its value as the group, whatever follows. */
  lemma QuotedGroupEverywhere(f: string, v: string)
    requires FieldName(f) && Lacks(v, '\'')
    ensures var w := FieldText(f, v); var m := MatcherOf(QuotedField(f));
      forall rest :: m(w + rest).Some? && m(w + rest).value.groupStart == |f| + 3
        && m(w + rest).value.groupEnd == |f| + 3 + |v|
  {
    var w := FieldText(f, v);
    var m := MatcherOf(QuotedField(f));
    forall rest ensures m(w + rest) == Some(Hit(|w|, |f| + 3, |f| + 3 + |v|)) {
      QuotedFieldOnText(f, v, rest);
    }
  }

  /** Every quoted-field match starts with the label. */
  lemma QuotedLabel(f: string, s: string, q: nat)
    requires q <= |s|
    ensures MatchesAt(MatcherOf(QuotedField(f)), s, q) ==> f + ":" <= s[q..]
  {
    QuotedMatchesAt(f, s, q);
  }
}
