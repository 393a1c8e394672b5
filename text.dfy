/** Character classes and string helpers shared by the hand-written matchers.
    Strings are `seq<char>`; the classes are the ones the scripts' regular
    expressions use (`\s`, `\d`, `[A-Fa-f0-9]`, `\w`, `[^\s]`, `[^x]`). */
module Text {

  datatype Option<+T> = None | Some(value: T) {
    predicate IsFailure() { None? }
    function PropagateFailure<U>(): Option<U> requires None? { None }
    function Extract(): T requires Some? { value }
    function GetOr(default: T): T { if Some? then value else default }
  }

  /** Python's `\s` on a str pattern: the characters for which str.isspace() holds. */
  predicate IsSpace(c: char) {
    c == ' ' || ('\t' <= c <= '\r') || ('\U{1C}' <= c <= '\U{1F}')
    || c == '\U{85}' || c == '\U{A0}' || c == '\U{1680}'
    || ('\U{2000}' <= c <= '\U{200A}') || c == '\U{2028}' || c == '\U{2029}'
    || c == '\U{202F}' || c == '\U{205F}' || c == '\U{3000}'
  }

  predicate IsDigit(c: char) { '0' <= c <= '9' }

  predicate IsHexDigit(c: char) { IsDigit(c) || 'a' <= c <= 'f' || 'A' <= c <= 'F' }

  predicate IsWordChar(c: char) { IsDigit(c) || 'a' <= c <= 'z' || 'A' <= c <= 'Z' || c == '_' }

  /** The case folding that IGNORECASE applies to ASCII letters. */
  function ToLower(c: char): (d: char)
    ensures 'A' <= c <= 'Z' ==> 'a' <= d <= 'z' && d as int == c as int + 32
    ensures !('A' <= c <= 'Z') ==> d == c
  {
    if 'A' <= c <= 'Z' then (c as int + 32) as char else c
  }

  datatype CharClass =
    | Space            // \s
    | Digit            // \d
    | HexDigit         // [A-Fa-f0-9]
    | Word             // \w
    | NonSpace         // [^\s\n]
    | NoneOf(c: char)  // [^c]

  predicate In(c: char, k: CharClass) {
    match k
    case Space => IsSpace(c)
    case Digit => IsDigit(c)
    case HexDigit => IsHexDigit(c)
    case Word => IsWordChar(c)
    case NonSpace => !IsSpace(c)
    case NoneOf(x) => c != x
  }

  predicate AllIn(s: string, k: CharClass) {
    forall i :: 0 <= i < |s| ==> In(s[i], k)
  }

  /** Length of the longest prefix of `s` whose characters all lie in `k`:
      what a greedy `k*` consumes. */
  function Span(s: string, k: CharClass): (n: nat)
    ensures n <= |s|
    ensures AllIn(s[..n], k)
    ensures n < |s| ==> !In(s[n], k)
  {
    if |s| > 0 && In(s[0], k) then
      var m := Span(s[1..], k);
      assert s[..1 + m] == [s[0]] + s[1..][..m];
      1 + m
    else 0
  }

  /** A greedy run is decided by the characters it covers and the one that stops it. */
  lemma {:induction false} SpanOfAllIn(s: string, k: CharClass, n: nat)
    requires n <= |s| && AllIn(s[..n], k)
    requires n < |s| ==> !In(s[n], k)
    ensures Span(s, k) == n
  {
    if n > 0 {
      assert s[1..][..n - 1] == s[1..n];
      assert In(s[..n][0], k);
      SpanOfAllIn(s[1..], k, n - 1);
    }
  }

  /** Span over a concatenation whose first part lies wholly in the class. */
  lemma SpanAppend(a: string, b: string, k: CharClass)
    requires AllIn(a, k)
    ensures Span(a + b, k) == |a| + Span(b, k)
  {
    var n := Span(b, k);
    assert (a + b)[..|a| + n] == a + b[..n];
    SpanOfAllIn(a + b, k, |a| + n);
  }

  /** Case-insensitive prefix test, as IGNORECASE compares a literal. */
  predicate PrefixIgnoreCase(p: string, s: string) {
    |p| <= |s| && forall i :: 0 <= i < |p| ==> ToLower(p[i]) == ToLower(s[i])
  }

  predicate Lacks(s: string, c: char) {
    forall i :: 0 <= i < |s| ==> s[i] != c
  }

  lemma LacksAppend(a: string, b: string, c: char)
    requires Lacks(a, c) && Lacks(b, c)
    ensures Lacks(a + b, c)
  {
  }

  predicate EndsWith(s: string, suffix: string) {
    |suffix| <= |s| && s[|s| - |suffix|..] == suffix
  }

  predicate Contains(s: string, part: string) {
    exists i :: 0 <= i <= |s| && part <= s[i..]
  }

  /** `sep.join(parts)`. */
  function Join(parts: seq<string>, sep: string): (r: string)
    ensures parts == [] ==> r == ""
    ensures |parts| == 1 ==> r == parts[0]
  {
    if |parts| == 0 then ""
    else if |parts| == 1 then parts[0]
    else parts[0] + sep + Join(parts[1..], sep)
  }

  lemma NotContainedAt(s: string, part: string, i: nat)
    requires !Contains(s, part) && i <= |s|
    ensures !(part <= s[i..])
  {
  }
}
