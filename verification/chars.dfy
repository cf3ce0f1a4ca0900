/**
 * ASCII character classes. The regular expression classes of the email rule are
 * ASCII ranges; Python's `str.isdigit`, `str.isupper` and `str.islower` are
 * restricted here to their ASCII behaviour.
 */
module Chars {

  predicate IsDigit(c: char) { '0' <= c <= '9' }

  predicate IsUpper(c: char) { 'A' <= c <= 'Z' }

  predicate IsLower(c: char) { 'a' <= c <= 'z' }

  predicate IsLetter(c: char) { IsUpper(c) || IsLower(c) }

  /** Python's `any(p(ch) for ch in s)`. */
  predicate Any(s: string, p: char -> bool) {
    exists i | 0 <= i < |s| :: p(s[i])
  }

  /** Every character of `s` is in the class `p`. */
  predicate All(s: string, p: char -> bool) {
    forall i | 0 <= i < |s| :: p(s[i])
  }

  /** The ASCII characters Python's `str.isspace` accepts. */
  predicate IsSpace(c: char) {
    c == ' ' || c == '\t' || c == '\n' || c == '\r' || c == '\U{0B}' || c == '\U{0C}' ||
    ('\U{1C}' <= c <= '\U{1F}')
  }

  /** `s` is whitespace only; the empty string is blank. */
  predicate IsBlank(s: string) {
    forall k | 0 <= k < |s| :: IsSpace(s[k])
  }

  /** `s` with its leading whitespace removed. */
  function TrimStart(s: string): string {
    if |s| > 0 && IsSpace(s[0]) then TrimStart(s[1..]) else s
  }

  /** `s` with its trailing whitespace removed. */
  function TrimEnd(s: string): string {
    if |s| > 0 && IsSpace(s[|s| - 1]) then TrimEnd(s[..|s| - 1]) else s
  }

  /** `TrimStart` keeps a suffix, drops only whitespace, and stops at the first other character. */
  lemma {:induction false} TrimStartDropsSpace(s: string)
    ensures var r := TrimStart(s);
      && |r| <= |s| && r == s[|s| - |r|..]
      && (forall k | 0 <= k < |s| - |r| :: IsSpace(s[k]))
      && (r == [] || !IsSpace(r[0]))
  {
    if |s| > 0 && IsSpace(s[0]) {
      TrimStartDropsSpace(s[1..]);
    }
  }

  /** `TrimEnd` keeps a prefix, drops only whitespace, and stops at the last other character. */
  lemma {:induction false} TrimEndDropsSpace(s: string)
    ensures var r := TrimEnd(s);
      && |r| <= |s| && r == s[..|r|]
      && (forall k | |r| <= k < |s| :: IsSpace(s[k]))
      && (r == [] || !IsSpace(r[|r| - 1]))
  {
    if |s| > 0 && IsSpace(s[|s| - 1]) {
      TrimEndDropsSpace(s[..|s| - 1]);
    }
  }

  /** `r` sits at offset `i` of `s` with only whitespace before and after it. */
  predicate SurroundedBySpace(s: string, i: int, r: string) {
    && 0 <= i <= |s| - |r|
    && r == s[i..i + |r|]
    && (forall k | 0 <= k < i :: IsSpace(s[k]))
    && (forall k | i + |r| <= k < |s| :: IsSpace(s[k]))
  }

  /**
   * Python's `str.strip()`: `s` without its leading and trailing whitespace.
   * What remains neither starts nor ends with whitespace.
   */
  function Strip(s: string): (r: string)
    ensures |r| <= |s|
    ensures r == [] || (!IsSpace(r[0]) && !IsSpace(r[|r| - 1]))
  {
    TrimStartDropsSpace(s);
    TrimEndDropsSpace(TrimStart(s));
    TrimEnd(TrimStart(s))
  }

  /** What `Strip` keeps is a middle part of `s` with only whitespace around it. */
  lemma {:induction false} StripKeepsMiddle(s: string)
    ensures exists i :: SurroundedBySpace(s, i, Strip(s))
  {
    var t := TrimStart(s);
    var r := TrimEnd(t);
    var i := |s| - |t|;
    TrimStartDropsSpace(s);
    TrimEndDropsSpace(t);
    assert Strip(s) == r;
    assert t == s[i..] && r == t[..|r|];
    assert r == s[i..i + |r|];
    assert forall k | i + |r| <= k < |s| :: IsSpace(s[k]) by {
      forall k | i + |r| <= k < |s| ensures IsSpace(s[k]) {
        assert s[k] == t[k - i];
      }
    }
    assert SurroundedBySpace(s, i, r);
  }

  /** Stripping leaves nothing exactly when the text is blank. */
  lemma {:induction false} StripBlank(s: string)
    ensures Strip(s) == [] <==> IsBlank(s)
  {
    StripKeepsMiddle(s);
    var i :| SurroundedBySpace(s, i, Strip(s));
    if Strip(s) != [] {
      assert s[i] == Strip(s)[0];
    }
  }

  /** Stripping twice is stripping once. */
  lemma {:induction false} StripIdempotent(s: string)
    ensures Strip(Strip(s)) == Strip(s)
  {
    var r := Strip(s);
    TrimStartDropsSpace(r);
    assert TrimStart(r) == r;
    assert TrimEnd(r) == r;
  }

  /** A string is its own strip exactly when it neither starts nor ends with whitespace. */
  lemma {:induction false} StripFixed(s: string)
    ensures Strip(s) == s <==> (s == [] || (!IsSpace(s[0]) && !IsSpace(s[|s| - 1])))
  {
    if s == [] || (!IsSpace(s[0]) && !IsSpace(s[|s| - 1])) {
      assert TrimStart(s) == s;
      assert TrimEnd(s) == s;
    }
  }
}
