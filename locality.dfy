/** Where a reader declaration (`CREATE [OR REPLACE] SOURCE <w> USING
    Global.<reader>`) can lie: it is made of word characters, blanks and
    dots only, so it never reaches past any other character. Text put in at
    such a character therefore leaves alone every declaration that starts
    before it, and shifts every one that starts after it. */
module Locality {
  import opened Text
  import opened Matching
  import opened Patterns

  /** A character no declaration contains, such as `)`, `,`, `:` or `'`. */
  predicate Stops(c: char) {
    !IsWordChar(c) && !IsSpace(c) && c != '.'
  }

  /** A literal made of word characters and dots, as every literal of the
      declaration pattern is. */
  predicate Plain(lit: string) {
    forall j :: 0 <= j < |lit| ==> IsWordChar(lit[j]) || lit[j] == '.'
  }

  /** `t1` and `t2` agree before `m`, and both hold a stopping character at `m`. */
  predicate Agree(t1: string, t2: string, m: nat) {
    m < |t1| && m < |t2| && t1[..m] == t2[..m] && Stops(t1[m]) && Stops(t2[m])
  }

  // ---- the building blocks stop at m and agree before it ----

  lemma LitAgree(t1: string, t2: string, m: nat, i: nat, lit: string)
    requires Agree(t1, t2, m) && i <= m && Plain(lit)
    ensures LitIgnoreCase(t1, i, lit) == LitIgnoreCase(t2, i, lit)
    ensures LitIgnoreCase(t1, i, lit).Some? ==> LitIgnoreCase(t1, i, lit).value <= m
  {
    if i + |lit| > m {
      var j := m - i;
      assert t1[i..][j] == t1[m] && t2[i..][j] == t2[m];
      assert ToLower(lit[j]) != ToLower(t1[m]) && ToLower(lit[j]) != ToLower(t2[m]);
    } else {
      assert forall j :: 0 <= j < |lit| ==> t1[i..][j] == t1[..m][i + j] && t2[i..][j] == t2[..m][i + j];
    }
  }

  lemma RunAgree(t1: string, t2: string, m: nat, i: nat, k: CharClass)
    requires Agree(t1, t2, m) && i <= m && (k == Space || k == Word)
    ensures Run(t1, i, k) == Run(t2, i, k) <= m
  {
    var j := Run(t1, i, k);
    assert forall x :: i <= x < j ==> t1[x] == t1[i..j][x - i];
    assert j <= m;
    assert t2[i..j] == t1[i..j] by {
      assert t1[..m][i..j] == t1[i..j] && t2[..m][i..j] == t2[i..j];
    }
    assert j < m ==> t2[j] == t2[..m][j] == t1[..m][j] == t1[j];
    RunIs(t2, i, k, j);
  }

  lemma Run1Agree(t1: string, t2: string, m: nat, i: nat, k: CharClass)
    requires Agree(t1, t2, m) && i <= m && (k == Space || k == Word)
    ensures Run1(t1, i, k) == Run1(t2, i, k)
    ensures Run1(t1, i, k).Some? ==> Run1(t1, i, k).value <= m
  {
    RunAgree(t1, t2, m, i, k);
  }

  lemma PlainLiterals()
    ensures Plain("CREATE") && Plain("OR") && Plain("REPLACE") && Plain("SOURCE")
    ensures Plain("USING") && Plain("Global.")
  {
  }

  lemma CreateHeadAgree(t1: string, t2: string, m: nat)
    requires Agree(t1, t2, m)
    ensures CreateHead(t1) == CreateHead(t2)
    ensures CreateHead(t1).Some? ==> CreateHead(t1).value <= m
  {
    PlainLiterals();
    LitAgree(t1, t2, m, 0, "CREATE");
    var a := LitIgnoreCase(t1, 0, "CREATE");
    if a.Some? {
      Run1Agree(t1, t2, m, a.value, Space);
    }
  }

  lemma OrReplaceAgree(t1: string, t2: string, m: nat, i: nat)
    requires Agree(t1, t2, m) && i <= m
    ensures OrReplace(t1, i) == OrReplace(t2, i)
    ensures OrReplace(t1, i).Some? ==> OrReplace(t1, i).value <= m
  {
    PlainLiterals();
    LitAgree(t1, t2, m, i, "OR");
    var a := LitIgnoreCase(t1, i, "OR");
    if a.Some? {
      Run1Agree(t1, t2, m, a.value, Space);
      var b := Run1(t1, a.value, Space);
      if b.Some? {
        LitAgree(t1, t2, m, b.value, "REPLACE");
        var c := LitIgnoreCase(t1, b.value, "REPLACE");
        if c.Some? {
          Run1Agree(t1, t2, m, c.value, Space);
        }
      }
    }
  }

  /** `SOURCE\s+\w+\s+` at i, the part of the head before `USING`. */
  lemma SourceWordAgree(t1: string, t2: string, m: nat, i: nat)
    requires Agree(t1, t2, m) && i <= m
    ensures var a1, a2 := LitIgnoreCase(t1, i, "SOURCE"), LitIgnoreCase(t2, i, "SOURCE");
      && a1 == a2
      && (a1.Some? ==> a1.value <= m && Run1(t1, a1.value, Space) == Run1(t2, a1.value, Space))
      && (a1.Some? && Run1(t1, a1.value, Space).Some? ==>
            var b := Run1(t1, a1.value, Space).value;
            b <= m && Run1(t1, b, Word) == Run1(t2, b, Word)
            && (Run1(t1, b, Word).Some? ==> Run1(t1, b, Word).value <= m))
  {
    PlainLiterals();
    LitAgree(t1, t2, m, i, "SOURCE");
    var a := LitIgnoreCase(t1, i, "SOURCE");
    if a.Some? {
      Run1Agree(t1, t2, m, a.value, Space);
      var b := Run1(t1, a.value, Space);
      if b.Some? {
        Run1Agree(t1, t2, m, b.value, Word);
      }
    }
  }

  /** `\s+USING\s+Global\.<reader>` at c, the rest of the head. */
  function UsingTail(t: string, c: nat, reader: string): Option<nat> {
    var d :- Run1(t, c, Space);
    var e :- LitIgnoreCase(t, d, "USING");
    var f :- Run1(t, e, Space);
    var g :- LitIgnoreCase(t, f, "Global.");
    LitIgnoreCase(t, g, reader)
  }

  lemma UsingTailAgree(t1: string, t2: string, m: nat, c: nat, reader: string)
    requires Agree(t1, t2, m) && c <= m && Plain(reader)
    ensures UsingTail(t1, c, reader) == UsingTail(t2, c, reader)
    ensures UsingTail(t1, c, reader).Some? ==> UsingTail(t1, c, reader).value <= m
  {
    PlainLiterals();
    Run1Agree(t1, t2, m, c, Space);
    var d := Run1(t1, c, Space);
    if d.Some? {
      LitAgree(t1, t2, m, d.value, "USING");
      var e := LitIgnoreCase(t1, d.value, "USING");
      if e.Some? {
        Run1Agree(t1, t2, m, e.value, Space);
        var f := Run1(t1, e.value, Space);
        if f.Some? {
          LitAgree(t1, t2, m, f.value, "Global.");
          var g := LitIgnoreCase(t1, f.value, "Global.");
          if g.Some? {
            LitAgree(t1, t2, m, g.value, reader);
          }
        }
      }
    }
  }

  lemma SourceHeadSplit(t: string, i: nat, reader: string)
    ensures SourceHead(t, i, reader) ==
      match LitIgnoreCase(t, i, "SOURCE")
      case None => None
      case Some(a) =>
        match Run1(t, a, Space)
        case None => None
        case Some(b) =>
          match Run1(t, b, Word)
          case None => None
          case Some(c) => UsingTail(t, c, reader)
  {
  }

  lemma SourceHeadAgree(t1: string, t2: string, m: nat, i: nat, reader: string)
    requires Agree(t1, t2, m) && i <= m && Plain(reader)
    ensures SourceHead(t1, i, reader) == SourceHead(t2, i, reader)
    ensures SourceHead(t1, i, reader).Some? ==> SourceHead(t1, i, reader).value <= m
  {
    SourceHeadSplit(t1, i, reader);
    SourceHeadSplit(t2, i, reader);
    SourceWordAgree(t1, t2, m, i);
    var a := LitIgnoreCase(t1, i, "SOURCE");
    if a.Some? {
      var b := Run1(t1, a.value, Space);
      if b.Some? {
        var c := Run1(t1, b.value, Word);
        if c.Some? {
          UsingTailAgree(t1, t2, m, c.value, reader);
        }
      }
    }
  }

  /** Two texts that agree up to a stopping character hold the same
      declaration at their start, and it ends before that character. */
  lemma SourceDeclAgree(t1: string, t2: string, m: nat, reader: string)
    requires Agree(t1, t2, m) && Plain(reader)
    ensures SourceDeclAt(t1, reader) == SourceDeclAt(t2, reader)
    ensures SourceDeclAt(t1, reader).Some? ==> SourceDeclAt(t1, reader).value.end <= m
  {
    CreateHeadAgree(t1, t2, m);
    var b := CreateHead(t1);
    if b.Some? {
      OrReplaceAgree(t1, t2, m, b.value);
      var c := OrReplace(t1, b.value);
      if c.Some? {
        SourceHeadAgree(t1, t2, m, c.value, reader);
      }
      SourceHeadAgree(t1, t2, m, b.value, reader);
    }
  }

  // ---- what a declaration at the start of a text looks like ----

  lemma SourceHeadLength(t: string, i: nat, reader: string)
    ensures SourceHead(t, i, reader).Some? ==> SourceHead(t, i, reader).value >= i + 22 + |reader|
  {
    SourceHeadSplit(t, i, reader);
  }

  /** A declaration opens with `CREATE` in any case and is at least 29
      characters longer than the reader's name. */
  lemma SourceDeclShape(t: string, reader: string)
    requires SourceDeclAt(t, reader).Some?
    ensures PrefixIgnoreCase("CREATE", t)
    ensures SourceDeclAt(t, reader).value.end >= 29 + |reader|
  {
    var b := CreateHead(t).value;
    assert t[0..] == t;
    var c := OrReplace(t, b);
    if c.Some? {
      SourceHeadLength(t, c.value, reader);
    }
    SourceHeadLength(t, b, reader);
  }

  /** A declaration at the start of `t` ends before any stopping character. */
  lemma SourceDeclBefore(t: string, m: nat, reader: string)
    requires m < |t| && Stops(t[m]) && Plain(reader)
    ensures SourceDeclAt(t, reader).Some? ==> SourceDeclAt(t, reader).value.end <= m
  {
    SourceDeclAgree(t, t, m, reader);
  }

  // ---- searching across an insertion ----

  lemma DeclPrefix(t: string, reader: string)
    ensures MatchPrefix(SourceDecl(reader), t) == SourceDeclAt(t, reader)
  {
  }

  /** A declaration starting at `q`, where the text reads `t`, is found by
      the search. */
  lemma DeclFoundAt(s: string, q: nat, t: string, reader: string)
    requires q <= |s| && s[q..] == t && SourceDeclAt(t, reader).Some?
    ensures Search(SourceDecl(reader), s).Some?
  {
    DeclPrefix(s[q..], reader);
    assert MatchesAt(MatcherOf(SourceDecl(reader)), s, q);
  }

  /** The search finds a declaration starting where it says. */
  lemma DeclFound(s: string, reader: string)
    requires Search(SourceDecl(reader), s).Some?
    ensures Search(SourceDecl(reader), s).value <= |s|
    ensures SourceDeclAt(s[Search(SourceDecl(reader), s).value..], reader).Some?
  {
    DeclPrefix(s[Search(SourceDecl(reader), s).value..], reader);
  }

  /** The suffixes of two texts that agree before a stopping character at
      `a` agree before it too. */
  lemma SuffixesAgree(s: string, n: string, a: nat, q: nat)
    requires Agree(s, n, a) && q <= a
    ensures Agree(s[q..], n[q..], a - q)
  {
    assert s[q..][..a - q] == s[..a][q..] && n[q..][..a - q] == n[..a][q..];
  }

  /** `n` is `s` with `ins` put in at `a`. */
  predicate InsertedAt(s: string, n: string, a: nat, ins: string) {
    a <= |s| && |n| == |s| + |ins| && n[..a] == s[..a] && n[a + |ins|..] == s[a..]
  }

  lemma ShiftedSuffix(s: string, n: string, a: nat, ins: string, q: nat)
    requires InsertedAt(s, n, a, ins) && a <= q <= |s|
    ensures n[q + |ins|..] == s[q..]
  {
    assert n[q + |ins|..] == n[a + |ins|..][q - a..];
    assert s[q..] == s[a..][q - a..];
  }

  /** A declaration that starts at or before a stopping character of `t1`
      at `a` is one of `t2` too, when `t2` agrees with `t1` there. */
  lemma DeclBefore(t1: string, t2: string, a: nat, reader: string, q: nat)
    requires Agree(t1, t2, a) && Plain(reader) && q <= a
    requires SourceDeclAt(t1[q..], reader).Some?
    ensures SourceDeclAt(t2[q..], reader).Some?
  {
    SuffixesAgree(t1, t2, a, q);
    SourceDeclAgree(t1[q..], t2[q..], a - q, reader);
  }

  /** A declaration in `s` is still one in `n`. */
  lemma DeclaredAfterInsert(s: string, n: string, a: nat, ins: string, reader: string)
    requires InsertedAt(s, n, a, ins) && Agree(s, n, a) && Plain(reader)
    requires Search(SourceDecl(reader), s).Some?
    ensures Search(SourceDecl(reader), n).Some?
  {
    DeclFound(s, reader);
    var q := Search(SourceDecl(reader), s).value;
    if q <= a {
      DeclBefore(s, n, a, reader, q);
      DeclFoundAt(n, q, n[q..], reader);
    } else {
      ShiftedSuffix(s, n, a, ins, q);
      DeclFoundAt(n, q + |ins|, s[q..], reader);
    }
  }

  /** A declaration in `n` that does not start inside `ins` was one in `s`. */
  lemma DeclaredBeforeInsert(s: string, n: string, a: nat, ins: string, reader: string)
    requires InsertedAt(s, n, a, ins) && Agree(s, n, a) && Plain(reader)
    requires Search(SourceDecl(reader), n).Some?
    requires Search(SourceDecl(reader), n).value <= a
      || Search(SourceDecl(reader), n).value >= a + |ins|
    ensures Search(SourceDecl(reader), s).Some?
  {
    DeclFound(n, reader);
    var q := Search(SourceDecl(reader), n).value;
    if q <= a {
      DeclBefore(n, s, a, reader, q);
      DeclFoundAt(s, q, s[q..], reader);
    } else {
      ShiftedSuffix(s, n, a, ins, q - |ins|);
      DeclFoundAt(s, q - |ins|, n[q..], reader);
    }
  }

  /** Putting `ins` in at a stopping character of `s`, where `ins` opens with
      a stopping character and no declaration starts inside it, changes
      nothing about whether `s` declares the reader. */
  lemma DeclaredAcrossInsert(s: string, n: string, a: nat, ins: string, reader: string)
    requires InsertedAt(s, n, a, ins) && a < |s| && Stops(s[a])
    requires |ins| > 0 && n[a] == ins[0] && Stops(ins[0]) && Plain(reader)
    requires forall q :: a < q < a + |ins| ==> SourceDeclAt(n[q..], reader).None?
    ensures Search(SourceDecl(reader), n).Some? <==> Search(SourceDecl(reader), s).Some?
  {
    if Search(SourceDecl(reader), s).Some? {
      DeclaredAfterInsert(s, n, a, ins, reader);
    }
    if Search(SourceDecl(reader), n).Some? {
      DeclFound(n, reader);
      DeclaredBeforeInsert(s, n, a, ins, reader);
    }
  }
}
