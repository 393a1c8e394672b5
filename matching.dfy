/** Python's `re.search` and `re.sub`, over any matcher that tries to match at
    the start of the text it is given. `re.search` reports the leftmost
    position with a match; `re.sub` replaces the leftmost match, resumes the
    search where that match ended, and so on, leaving the text between
    matches as it was. Replacements are taken literally. */
module Matching {
  import opened Text

  /** A match: where it ends and where its first group lies, all relative to
      the position the match starts at. */
  datatype Hit = Hit(end: nat, groupStart: nat, groupEnd: nat)

  type Matcher = string -> Option<Hit>

  /** A match is never empty, stays inside `t`, and its group lies inside it. */
  predicate Fits(r: Option<Hit>, t: string) {
    r.Some? ==> 0 < r.value.end <= |t| && r.value.groupStart <= r.value.groupEnd <= r.value.end
  }

  /** Every match the matcher reports fits the text it was given. */
  ghost predicate Sound(m: Matcher) {
    forall t :: Fits(m(t), t)
  }

  predicate MatchesAt(m: Matcher, s: string, q: nat) {
    q <= |s| && m(s[q..]).Some?
  }

  /** `re.search` from `from`: the leftmost position at which `m` matches. */
  function SearchFrom(m: Matcher, s: string, from: nat): (r: Option<nat>)
    requires from <= |s|
    decreases |s| - from
    ensures r.Some? ==> from <= r.value <= |s| && MatchesAt(m, s, r.value)
    ensures forall q :: from <= q <= |s| && (r.None? || q < r.value) ==> !MatchesAt(m, s, q)
  {
    if MatchesAt(m, s, from) then Some(from)
    else if from == |s| then None
    else SearchFrom(m, s, from + 1)
  }

  /** Where the match found at `q` ends, as a position in `s`. */
  function MatchEnd(m: Matcher, s: string, q: nat): (e: nat)
    requires Sound(m) && MatchesAt(m, s, q)
    ensures q < e <= |s|
  {
    assert Fits(m(s[q..]), s[q..]);
    q + m(s[q..]).value.end
  }

  /** `re.sub(pattern, repl, s[from..])` with a replacement free of backslashes. */
  function SubAllFrom(m: Matcher, s: string, from: nat, repl: string): string
    requires Sound(m) && from <= |s|
    decreases |s| - from
  {
    match SearchFrom(m, s, from)
    case None => s[from..]
    case Some(q) => s[from..q] + repl + SubAllFrom(m, s, MatchEnd(m, s, q), repl)
  }

  /** The leftmost match is the one no earlier position has. */
  lemma {:induction false} SearchFromIs(m: Matcher, s: string, from: nat, q: nat)
    requires from <= q <= |s| && MatchesAt(m, s, q)
    requires forall j :: from <= j < q ==> !MatchesAt(m, s, j)
    ensures SearchFrom(m, s, from) == Some(q)
    decreases q - from
  {
    if from < q {
      SearchFromIs(m, s, from + 1, q);
    }
  }

  /** Matching depends only on the text from the match position on. */
  lemma MatchesAtShift(m: Matcher, a: string, b: string, q: nat)
    requires q <= |b|
    ensures (a + b)[|a| + q..] == b[q..]
    ensures MatchesAt(m, a + b, |a| + q) <==> MatchesAt(m, b, q)
  {
    assert (a + b)[|a| + q..] == b[q..];
  }

  /** Searching a suffix is unaffected by what precedes it. */
  lemma SearchShift(m: Matcher, a: string, b: string, q: nat)
    requires q <= |b|
    ensures SearchFrom(m, a + b, |a| + q) ==
      (if SearchFrom(m, b, q).Some? then Some(|a| + SearchFrom(m, b, q).value) else None)
  {
    forall j | q <= j <= |b| ensures MatchesAt(m, a + b, |a| + j) <==> MatchesAt(m, b, j) {
      MatchesAtShift(m, a, b, j);
    }
    var r := SearchFrom(m, b, q);
    if r.Some? {
      forall j | |a| + q <= j < |a| + r.value ensures !MatchesAt(m, a + b, j) {
        assert MatchesAt(m, a + b, |a| + (j - |a|)) <==> MatchesAt(m, b, j - |a|);
      }
      SearchFromIs(m, a + b, |a| + q, |a| + r.value);
    } else {
      forall j | |a| + q <= j <= |a + b| ensures !MatchesAt(m, a + b, j) {
        assert MatchesAt(m, a + b, |a| + (j - |a|)) <==> MatchesAt(m, b, j - |a|);
      }
    }
  }

  /** Substituting in a suffix is unaffected by what precedes it. */
  lemma {:induction false} SubAllShift(m: Matcher, a: string, b: string, q: nat, repl: string)
    requires Sound(m) && q <= |b|
    ensures SubAllFrom(m, a + b, |a| + q, repl) == SubAllFrom(m, b, q, repl)
    decreases |b| - q
  {
    SearchShift(m, a, b, q);
    match SearchFrom(m, b, q)
    case None =>
      assert (a + b)[|a| + q..] == b[q..];
    case Some(j) =>
      MatchesAtShift(m, a, b, j);
      assert (a + b)[|a| + q..|a| + j] == b[q..j];
      SubAllShift(m, a, b, MatchEnd(m, b, j), repl);
  }

  /** Where nothing matches from `from` on, substitution changes nothing. */
  lemma SubAllNone(m: Matcher, s: string, from: nat, repl: string)
    requires Sound(m) && from <= |s|
    requires forall q :: from <= q <= |s| ==> !MatchesAt(m, s, q)
    ensures SubAllFrom(m, s, from, repl) == s[from..]
  {
  }

  /** The first substitution, spelled out. */
  lemma SubAllFirst(m: Matcher, s: string, from: nat, q: nat, repl: string)
    requires Sound(m) && from <= q <= |s| && MatchesAt(m, s, q)
    requires forall j :: from <= j < q ==> !MatchesAt(m, s, j)
    ensures SubAllFrom(m, s, from, repl) == s[from..q] + repl + SubAllFrom(m, s, MatchEnd(m, s, q), repl)
  {
    SearchFromIs(m, s, from, q);
  }

  // ---- when a second substitution changes nothing ----

  /** `w` is matched exactly, whatever follows it. */
  ghost predicate MatchesWhole(m: Matcher, w: string) {
    forall rest :: m(w + rest).Some? && m(w + rest).value.end == |w|
  }

  /** No match starts anywhere inside `w`, whatever follows it. */
  ghost predicate NoMatchFrom(m: Matcher, w: string) {
    forall i, rest :: 0 <= i < |w| ==> m(w[i..] + rest).None?
  }

  /** A match starting in `seg` just before `w` would also start there before
      any text at whose start the matcher matches: it cannot reach into `w`. */
  ghost predicate CrossingMatchesEarlier(m: Matcher, w: string) {
    forall seg, x, y, q :: 0 <= q < |seg| && MatchesAt(m, y, 0) && MatchesAt(m, seg + (w + x), q)
      ==> MatchesAt(m, seg + y, q)
  }

  /** Before the first match, substitution leaves no match. */
  lemma NoMatchBeforeReplacement(m: Matcher, w: string, s: string, from: nat, st: nat, rest: string)
    requires Sound(m) && CrossingMatchesEarlier(m, w) && from <= |s|
    requires SearchFrom(m, s, from) == Some(st)
    ensures forall q :: 0 <= q < st - from ==> !MatchesAt(m, s[from..st] + (w + rest), q)
  {
    var seg := s[from..st];
    var y := s[st..];
    assert MatchesAt(m, y, 0);
    forall q | 0 <= q < |seg| ensures !MatchesAt(m, seg + (w + rest), q) {
      assert !MatchesAt(m, s, from + q);
      assert s[from + q..] == (seg + y)[q..];
    }
  }

  /** Substituting a second time changes nothing when the replacement is
      matched exactly and no match can run into it from before. */
  lemma {:induction false} SubAllStable(m: Matcher, w: string, s: string, from: nat)
    requires Sound(m) && MatchesWhole(m, w) && CrossingMatchesEarlier(m, w) && from <= |s|
    ensures SubAllFrom(m, SubAllFrom(m, s, from, w), 0, w) == SubAllFrom(m, s, from, w)
    decreases |s| - from
  {
    var r := SubAllFrom(m, s, from, w);
    match SearchFrom(m, s, from)
    case None =>
      forall q | 0 <= q <= |r| ensures !MatchesAt(m, r, q) {
        assert r[q..] == s[from + q..];
        assert !MatchesAt(m, s, from + q);
      }
      SubAllNone(m, r, 0, w);
    case Some(st) =>
      StableStep(m, w, s, from, st);
      SubAllStable(m, w, s, MatchEnd(m, s, st));
  }

  /** One step of the above: the first replacement stays, and substitution
      goes on after it. */
  lemma StableStep(m: Matcher, w: string, s: string, from: nat, st: nat)
    requires Sound(m) && MatchesWhole(m, w) && CrossingMatchesEarlier(m, w) && from <= |s|
    requires SearchFrom(m, s, from) == Some(st)
    ensures var r' := SubAllFrom(m, s, MatchEnd(m, s, st), w);
      && SubAllFrom(m, s, from, w) == s[from..st] + w + r'
      && SubAllFrom(m, SubAllFrom(m, s, from, w), 0, w) == s[from..st] + w + SubAllFrom(m, r', 0, w)
  {
    var r := SubAllFrom(m, s, from, w);
    var seg := s[from..st];
    var r' := SubAllFrom(m, s, MatchEnd(m, s, st), w);
    assert r == seg + (w + r');
    NoMatchBeforeReplacement(m, w, s, from, st, r');
    ReplacedAgain(m, w, seg, r');
  }

  /** Substituting again in `seg + w + rest`, where nothing matches inside
      `seg`, keeps `seg + w` and goes on in `rest`. */
  lemma ReplacedAgain(m: Matcher, w: string, seg: string, rest: string)
    requires Sound(m) && MatchesWhole(m, w)
    requires forall q :: 0 <= q < |seg| ==> !MatchesAt(m, seg + (w + rest), q)
    ensures SubAllFrom(m, seg + (w + rest), 0, w) == seg + w + SubAllFrom(m, rest, 0, w)
  {
    var r := seg + (w + rest);
    var e := |seg| + |w|;
    assert r[|seg|..] == w + rest;
    assert m(w + rest).Some? && m(w + rest).value.end == |w|;
    assert MatchesAt(m, r, |seg|) && MatchEnd(m, r, |seg|) == e;
    SubAllFirst(m, r, 0, |seg|, w);
    assert r[0..|seg|] == seg;
    ResumeAfter(m, w, seg, rest);
  }

  /** Substitution resumed after `seg + w` sees only `rest`. */
  lemma ResumeAfter(m: Matcher, w: string, seg: string, rest: string)
    requires Sound(m)
    ensures SubAllFrom(m, seg + (w + rest), |seg| + |w|, w) == SubAllFrom(m, rest, 0, w)
  {
    assert seg + (w + rest) == (seg + w) + rest;
    SubAllShift(m, seg + w, rest, 0, w);
  }

  /** Substitution leaves no match at all when no match starts inside the
      replacement and none can run into it from before. */
  lemma {:induction false} SubAllExhausts(m: Matcher, w: string, s: string, from: nat)
    requires Sound(m) && NoMatchFrom(m, w) && CrossingMatchesEarlier(m, w) && from <= |s|
    ensures forall q :: 0 <= q <= |SubAllFrom(m, s, from, w)| ==> !MatchesAt(m, SubAllFrom(m, s, from, w), q)
    decreases |s| - from
  {
    var r := SubAllFrom(m, s, from, w);
    match SearchFrom(m, s, from)
    case None =>
      forall q | 0 <= q <= |r| ensures !MatchesAt(m, r, q) {
        assert r[q..] == s[from + q..];
        assert !MatchesAt(m, s, from + q);
      }
    case Some(st) =>
      var seg := s[from..st];
      var r' := SubAllFrom(m, s, MatchEnd(m, s, st), w);
      assert r == seg + (w + r');
      NoMatchBeforeReplacement(m, w, s, from, st, r');
      SubAllExhausts(m, w, s, MatchEnd(m, s, st));
      forall q | |seg| <= q <= |r| ensures !MatchesAt(m, r, q) {
        if q < |seg| + |w| {
          assert r[q..] == w[q - |seg|..] + r';
        } else {
          assert r[q..] == r'[q - |seg| - |w|..];
          assert !MatchesAt(m, r', q - |seg| - |w|);
        }
      }
  }

  /** After substitution the leftmost match is still where it was, now over
      the replacement, when the replacement is matched exactly and no match
      runs into it from before. */
  lemma SubAllFirstKept(m: Matcher, w: string, s: string)
    requires Sound(m) && MatchesWhole(m, w) && CrossingMatchesEarlier(m, w)
    requires SearchFrom(m, s, 0).Some?
    ensures var st := SearchFrom(m, s, 0).value; var r := SubAllFrom(m, s, 0, w);
      st + |w| <= |r| && r[st..] == w + r[st + |w|..] && SearchFrom(m, r, 0) == Some(st)
  {
    var st := SearchFrom(m, s, 0).value;
    var r' := SubAllFrom(m, s, MatchEnd(m, s, st), w);
    SubAllFirst(m, s, 0, st, w);
    var r := SubAllFrom(m, s, 0, w);
    assert r == s[0..st] + (w + r');
    NoMatchBeforeReplacement(m, w, s, 0, st, r');
    assert r[st..] == w + r';
    assert m(w + r').Some?;
    SearchFromIs(m, r, 0, st);
  }

  // ---- group 1 of the leftmost match ----

  /** Group 1 of the match at `q`. */
  function GroupFrom(m: Matcher, s: string, q: nat): (g: string)
    requires Sound(m) && MatchesAt(m, s, q)
    ensures |g| <= |s| - q
  {
    var h := m(s[q..]).value;
    assert Fits(m(s[q..]), s[q..]);
    s[q + h.groupStart..q + h.groupEnd]
  }

  /** `re.search(p, s).group(1)`, or nothing when there is no match. */
  function FindGroupBy(m: Matcher, s: string): (r: Option<string>)
    requires Sound(m)
    ensures r.Some? <==> SearchFrom(m, s, 0).Some?
  {
    match SearchFrom(m, s, 0)
    case None => None
    case Some(q) => Some(GroupFrom(m, s, q))
  }

  /** With no match before `rest` and one at its start, the group is read off `rest`. */
  lemma FoundAfterBy(m: Matcher, pre: string, rest: string)
    requires Sound(m) && m(rest).Some?
    requires forall j :: 0 <= j < |pre| ==> !MatchesAt(m, pre + rest, j)
    ensures m(rest).value.groupEnd <= |rest|
    ensures FindGroupBy(m, pre + rest) == Some(rest[m(rest).value.groupStart..m(rest).value.groupEnd])
  {
    var s := pre + rest;
    assert s[|pre|..] == rest;
    assert Fits(m(rest), rest);
    SearchFromIs(m, s, 0, |pre|);
    var h := m(rest).value;
    assert s[|pre| + h.groupStart..|pre| + h.groupEnd] == rest[h.groupStart..h.groupEnd];
  }

  /** After substituting a replacement that is matched exactly, with the same
      group wherever it stands, and that no match runs into from before, the
      group read back is the replacement's. */
  lemma FindGroupAfterSub(m: Matcher, w: string, s: string, gs: nat, ge: nat)
    requires Sound(m) && MatchesWhole(m, w) && CrossingMatchesEarlier(m, w)
    requires forall rest :: m(w + rest).Some? && m(w + rest).value.groupStart == gs && m(w + rest).value.groupEnd == ge
    requires SearchFrom(m, s, 0).Some?
    ensures ge <= |w| && FindGroupBy(m, SubAllFrom(m, s, 0, w)) == Some(w[gs..ge])
  {
    SubAllFirstKept(m, w, s);
    var st := SearchFrom(m, s, 0).value;
    var r := SubAllFrom(m, s, 0, w);
    var rest := r[st + |w|..];
    assert Fits(m(w + rest), w + rest) && m(w + rest).value.end == |w|;
    GroupKept(m, r, st, w, rest, gs, ge);
  }

  lemma GroupKept(m: Matcher, r: string, st: nat, w: string, rest: string, gs: nat, ge: nat)
    requires Sound(m) && st <= |r| && r[st..] == w + rest && SearchFrom(m, r, 0) == Some(st)
    requires m(w + rest).Some? && m(w + rest).value.groupStart == gs && m(w + rest).value.groupEnd == ge
    requires gs <= ge <= |w|
    ensures FindGroupBy(m, r) == Some(w[gs..ge])
  {
    assert m(r[st..]) == m(w + rest);
    assert GroupFrom(m, r, st) == r[st + gs..st + ge];
    assert FindGroupBy(m, r) == Some(GroupFrom(m, r, st));
    SliceWithin(r, st, w, rest, gs, ge);
  }

  lemma SliceWithin(r: string, st: nat, w: string, rest: string, i: nat, j: nat)
    requires st <= |r| && r[st..] == w + rest && i <= j <= |w|
    ensures r[st + i..st + j] == w[i..j]
  {
    forall k | 0 <= k < j - i
      ensures r[st + i..st + j][k] == w[i..j][k]
    {
      assert r[st + i..st + j][k] == r[st..][i + k] == (w + rest)[i + k];
    }
  }

  /** Substituting changes nothing when the only match is of the replacement
      itself, exactly. */
  lemma SubAllOnlyAt(m: Matcher, w: string, s: string, p: nat, rest: string)
    requires Sound(m) && p <= |s| && s[p..] == w + rest && MatchesAt(m, s, p) && m(s[p..]).value.end == |w|
    requires forall q :: 0 <= q <= |s| && q != p ==> !MatchesAt(m, s, q)
    ensures SubAllFrom(m, s, 0, w) == s
  {
    SubAllFirst(m, s, 0, p, w);
    SubAllNone(m, s, p + |w|, w);
    assert s[0..p] + w + s[p + |w|..] == s;
  }

  /** With a single match, substitution replaces just that one. */
  lemma SubAllSingle(m: Matcher, s: string, q: nat, repl: string)
    requires Sound(m) && SearchFrom(m, s, 0) == Some(q)
    requires SearchFrom(m, s, MatchEnd(m, s, q)).None?
    ensures SubAllFrom(m, s, 0, repl) == s[..q] + repl + s[MatchEnd(m, s, q)..]
  {
    assert s[0..q] == s[..q];
  }
}
