/**
 * The language of the email pattern
 *     ^[a-zA-Z0-9._%+-]+@[a-zA0-9.-]+\.[a-zA-Z]{2,}$
 * as Python's `re.match` applies it: anchored at the start, and with `$`
 * matching either at the very end or just before one final newline.
 *
 * The domain-body class is written `[a-zA0-9.-]`: it admits the lower-case
 * letters, the single upper-case letter `A`, digits, `.` and `-`. The final
 * label admits every ASCII letter.
 */
module EmailPattern {
  import opened Chars

  /** `[a-zA-Z0-9._%+-]` */
  predicate IsLocalChar(c: char) {
    IsLetter(c) || IsDigit(c) || c == '.' || c == '_' || c == '%' || c == '+' || c == '-'
  }

  /** `[a-zA0-9.-]` */
  predicate IsDomainChar(c: char) {
    IsLower(c) || c == 'A' || IsDigit(c) || c == '.' || c == '-'
  }

  /** `[a-zA-Z]` */
  predicate IsLabelChar(c: char) {
    IsLetter(c)
  }

  /**
   * `s` is local part `s[..at]`, then `@`, then domain body `s[at+1..dot]`,
   * then `.`, then a final label `s[dot+1..]` of at least two letters.
   */
  predicate SplitsAt(s: string, at: int, dot: int) {
    && 1 <= at && at + 2 <= dot && dot + 3 <= |s|
    && All(s[..at], IsLocalChar)
    && s[at] == '@'
    && All(s[at + 1..dot], IsDomainChar)
    && s[dot] == '.'
    && All(s[dot + 1..], IsLabelChar)
  }

  /** The whole of `s` is a sentence of the pattern's body. */
  predicate MatchesBody(s: string) {
    exists at, dot | 0 <= at < |s| && 0 <= dot < |s| :: SplitsAt(s, at, dot)
  }

  /** `re.match(pattern, s)` succeeds: `$` also matches before a final newline. */
  predicate Matches(s: string) {
    MatchesBody(s) || (|s| > 0 && s[|s| - 1] == '\n' && MatchesBody(s[..|s| - 1]))
  }

  /** The text the body of the pattern is matched against. */
  function Matched(s: string): (t: string)
    requires Matches(s)
    ensures MatchesBody(t)
    ensures t == s || (s == t + "\n")
  {
    if MatchesBody(s) then s else s[..|s| - 1]
  }

  /** The positions of `c` in `s`. */
  function Occurrences(s: string, c: char): set<int> {
    set k | 0 <= k < |s| && s[k] == c
  }

  // ---------------------------------------------------------------------------
  // The split is pinned: `@` is the first `@`, `.` is the last `.`.
  // ---------------------------------------------------------------------------

  /** No local-part character is `@`: a run of them holds no `@`. */
  lemma LocalRunHasNoAt(s: string, i: int)
    requires 0 <= i <= |s|
    requires All(s[..i], IsLocalChar)
    ensures forall k | 0 <= k < i :: s[k] != '@'
  {
  }

  /** The `@` of a split is the first `@` of the string. */
  lemma AtIsFirst(s: string, at: int, dot: int, i: int)
    requires SplitsAt(s, at, dot)
    requires 0 <= i <= |s|
    requires All(s[..i], IsLocalChar)
    ensures at >= i
  {
  }

  /** The pattern is unambiguous: a string splits in at most one way. */
  lemma SplitIsUnique(s: string, at: int, dot: int, at': int, dot': int)
    requires SplitsAt(s, at, dot)
    requires SplitsAt(s, at', dot')
    ensures at == at' && dot == dot'
  {
  }

  /** A split string holds exactly one `@`: neither character class contains it. */
  lemma SplitHasOneAt(s: string, at: int, dot: int)
    requires SplitsAt(s, at, dot)
    ensures Occurrences(s, '@') == {at}
  {
  }

  /** Every string the pattern accepts contains exactly one `@`. */
  lemma {:induction false} AcceptedHasOneAt(s: string)
    requires Matches(s)
    ensures exists k | 0 <= k < |s| :: Occurrences(s, '@') == {k}
  {
    var t := Matched(s);
    var at, dot :| 0 <= at < |t| && 0 <= dot < |t| && SplitsAt(t, at, dot);
    SplitHasOneAt(t, at, dot);
    assert Occurrences(s, '@') == Occurrences(t, '@') by {
      forall k | 0 <= k < |t|
        ensures s[k] == t[k]
      {
      }
    }
  }

  // ---------------------------------------------------------------------------
  // A left-to-right scanner that decides the same language.
  // ---------------------------------------------------------------------------

  /** A scan that stops at the first non-local character stops at the `@` of any split. */
  lemma LocalScanStopsAtAt(s: string, at: int, a: int, d: int)
    requires 0 <= at <= |s|
    requires forall m | 0 <= m < at :: IsLocalChar(s[m])
    requires at == |s| || !IsLocalChar(s[at])
    requires SplitsAt(s, a, d)
    ensures a == at
  {
  }

  /** A backward scan over letters that stops after the `@` stops at the `.` of the split. */
  lemma LabelScanStopsAtDot(s: string, at: int, dot: int, d: int)
    requires 0 <= at <= dot < |s|
    requires forall m | dot < m < |s| :: IsLabelChar(s[m])
    requires dot == at || !IsLabelChar(s[dot])
    requires SplitsAt(s, at, d)
    ensures d == dot
  {
  }

  /** A scan over domain characters from after the `@` reaches the `.` of the split. */
  lemma DomainScanReachesDot(s: string, at: int, dot: int, k: int)
    requires 0 <= at && at + 1 <= k <= dot < |s|
    requires k == dot || !IsDomainChar(s[k])
    requires SplitsAt(s, at, dot)
    ensures k == dot
  {
  }

  /** Decides `MatchesBody` by locating the first `@` and the last `.`. */
  method ScanBody(s: string) returns (ok: bool)
    ensures ok <==> MatchesBody(s)
  {
    var at := 0;
    while at < |s| && IsLocalChar(s[at])
      invariant 0 <= at <= |s|
      invariant forall m | 0 <= m < at :: IsLocalChar(s[m])
    {
      at := at + 1;
    }
    forall a, d | 0 <= a < |s| && 0 <= d < |s| && SplitsAt(s, a, d)
      ensures a == at
    {
      LocalScanStopsAtAt(s, at, a, d);
    }
    if at == 0 || at == |s| || s[at] != '@' {
      return false;
    }
    var dot := |s| - 1;
    while dot > at && IsLabelChar(s[dot])
      invariant at <= dot < |s|
      invariant forall m | dot < m < |s| :: IsLabelChar(s[m])
    {
      dot := dot - 1;
    }
    forall d | 0 <= d < |s| && SplitsAt(s, at, d)
      ensures d == dot
    {
      LabelScanStopsAtDot(s, at, dot, d);
    }
    var k := at + 1;
    while k < dot && IsDomainChar(s[k])
      invariant at + 1 <= k <= |s|
      invariant k <= dot || k == at + 1
      invariant forall m | at + 1 <= m < k :: IsDomainChar(s[m])
    {
      k := k + 1;
    }
    if at + 1 <= dot && SplitsAt(s, at, dot) {
      DomainScanReachesDot(s, at, dot, k);
    }
    ok := s[dot] == '.' && at + 2 <= dot && dot + 3 <= |s| && k == dot;
    if ok {
      assert All(s[at + 1..dot], IsDomainChar);
      assert All(s[dot + 1..], IsLabelChar);
      assert SplitsAt(s, at, dot);
    }
  }

  /** Decides `Matches`: the body, or the body followed by one final newline. */
  method ScanEmail(s: string) returns (ok: bool)
    ensures ok <==> Matches(s)
  {
    ok := ScanBody(s);
    if !ok && |s| > 0 && s[|s| - 1] == '\n' {
      ok := ScanBody(s[..|s| - 1]);
    }
  }
}
