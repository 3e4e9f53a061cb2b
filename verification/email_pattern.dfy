/**
 * The e-mail pattern of the contact form, `/^[^\s@]+@[^\s@]+\.[^\s@]+$/`:
 * its meaning as a regular expression, and the check the validator runs.
 */
module EmailPattern {
  import opened Text

  /** The character class `[^\s@]`. */
  predicate Atom(c: char) {
    !IsSpace(c) && c != '@'
  }

  ghost predicate AllAtoms(s: string) {
    forall i :: 0 <= i < |s| ==> Atom(s[i])
  }

  /**
   * The strings the anchored pattern matches: `x + "@" + y + "." + z` with
   * `x`, `y` and `z` non-empty runs of `[^\s@]` (`y` and `z` may hold dots).
   */
  ghost predicate MatchesPattern(s: string) {
    exists at, dot :: MatchesAt(s, at, dot)
  }

  /** The pattern matches `s` with its `@` at `at` and its `\.` at `dot`. */
  ghost predicate MatchesAt(s: string, at: int, dot: int) {
    && 0 < at && at + 1 < dot && dot + 1 < |s|
    && s[at] == '@' && s[dot] == '.'
    && AllAtoms(s[..at]) && AllAtoms(s[at + 1..dot]) && AllAtoms(s[dot + 1..])
  }

  /** The part of `s` after its first `@` (empty when there is none). */
  function Domain(s: string): string {
    var at := IndexOf(s, '@');
    if at < |s| then s[at + 1..] else []
  }

  /**
   * The pattern test as the validator evaluates it: `s` has no whitespace,
   * exactly one `@`, something before the `@`, and a `.` after it that is
   * neither the first nor the last character of the domain.
   */
  predicate IsValidEmail(s: string) {
    var at := IndexOf(s, '@');
    var domain := Domain(s);
    && NoSpace(s)
    && 0 < at < |s|
    && '@' !in domain
    && |domain| >= 3
    && '.' in domain[1..|domain| - 1]
  }

  /** The check accepts exactly the strings the regular expression matches. */
  lemma IsValidEmailIffPattern(s: string)
    ensures IsValidEmail(s) <==> MatchesPattern(s)
  {
    if MatchesPattern(s) {
      PatternPassesCheck(s);
    }
    if IsValidEmail(s) {
      CheckMatchesPattern(s);
    }
  }

  lemma PatternPassesCheck(s: string)
    requires MatchesPattern(s)
    ensures IsValidEmail(s)
  {
    var at, dot :| MatchesAt(s, at, dot);
    var x, y, z := s[..at], s[at + 1..dot], s[dot + 1..];
    var d := y + ['.'] + z;
    CutTwice(s, at, dot);
    DottedDomain(y, z);
    JoinedValid(x, d);
  }

  /** `x + "@" + d` passes the check when `x` is made of `[^\s@]` and `d` is a dotted domain. */
  lemma JoinedValid(x: string, d: string)
    requires 0 < |x| && AllAtoms(x)
    requires forall j :: 0 <= j < |d| ==> d[j] == '.' || Atom(d[j])
    requires |d| >= 3 && '.' in d[1..|d| - 1]
    ensures IsValidEmail(x + ['@'] + d)
  {
    JoinedAtoms(x, d);
  }

  /** `s` is the part before `at`, `s[at]`, the part up to `dot`, `s[dot]` and the rest. */
  lemma CutTwice(s: string, at: int, dot: int)
    requires 0 <= at < dot < |s|
    ensures s == s[..at] + [s[at]] + (s[at + 1..dot] + [s[dot]] + s[dot + 1..])
  {
    assert s[dot..] == [s[dot]] + s[dot + 1..];
    assert s[at + 1..] == s[at + 1..dot] + s[dot..];
    assert s[at..] == [s[at]] + s[at + 1..];
    assert s == s[..at] + s[at..];
  }

  /** `y + "." + z` with non-empty `y` and `z` made of `[^\s@]` is a domain the check accepts. */
  lemma DottedDomain(y: string, z: string)
    requires 0 < |y| && 0 < |z| && AllAtoms(y) && AllAtoms(z)
    ensures var d := y + ['.'] + z;
      && (forall j :: 0 <= j < |d| ==> d[j] == '.' || Atom(d[j]))
      && |d| >= 3 && '.' in d[1..|d| - 1]
  {
    var d := y + ['.'] + z;
    forall j | 0 <= j < |d| ensures d[j] == '.' || Atom(d[j]) {
      if j < |y| { assert d[j] == y[j]; }
      else if j > |y| { assert d[j] == z[j - |y| - 1]; }
    }
    assert d[1..|d| - 1][|y| - 1] == '.';
  }

  /** `x + "@" + d` with `x` and `d` free of whitespace and `@` passes the checks on everything but the dot. */
  lemma JoinedAtoms(x: string, d: string)
    requires AllAtoms(x) && forall j :: 0 <= j < |d| ==> d[j] == '.' || Atom(d[j])
    ensures NoSpace(x + ['@'] + d)
    ensures IndexOf(x + ['@'] + d, '@') == |x|
    ensures Domain(x + ['@'] + d) == d
    ensures '@' !in d
  {
    AtomsHaveNoSpace(x);
    DomainHasNoSpace(d);
    NoSpaceConcat(x, ['@']);
    NoSpaceConcat(x + ['@'], d);
    assert '@' !in x by {
      forall i | 0 <= i < |x| ensures x[i] != '@' { assert Atom(x[i]); }
    }
    IndexOfFirst(x, '@', d);
    assert (x + ['@'] + d)[|x| + 1..] == d;
  }

  lemma AtomsHaveNoSpace(x: string)
    requires AllAtoms(x)
    ensures NoSpace(x)
  {
    forall i | 0 <= i < |x| ensures !IsSpace(x[i]) { assert Atom(x[i]); }
  }

  lemma DomainHasNoSpace(d: string)
    requires forall j :: 0 <= j < |d| ==> d[j] == '.' || Atom(d[j])
    ensures NoSpace(d)
  {
    forall j | 0 <= j < |d| ensures !IsSpace(d[j]) {
      if d[j] != '.' { assert Atom(d[j]); }
    }
  }

  lemma CheckMatchesPattern(s: string)
    requires IsValidEmail(s)
    ensures MatchesPattern(s)
  {
    var k := IndexOf(s, '@');
    var d := Domain(s);
    assert d == s[k + 1..];
    var p :| 0 <= p < |d| - 2 && d[1..|d| - 1][p] == '.';
    var dot := k + 2 + p;
    assert s[dot] == '.';
    forall i | 0 <= i < |s| && i != k ensures Atom(s[i]) {
      if i < k { assert s[i] == s[..k][i]; }
      else { assert s[i] == d[i - k - 1]; }
    }
    var x, y, z := s[..k], s[k + 1..dot], s[dot + 1..];
    assert AllAtoms(x) by {
      forall j | 0 <= j < |x| ensures Atom(x[j]) { assert x[j] == s[j]; }
    }
    assert AllAtoms(y) by {
      forall j | 0 <= j < |y| ensures Atom(y[j]) { assert y[j] == s[k + 1 + j]; }
    }
    assert AllAtoms(z) by {
      forall j | 0 <= j < |z| ensures Atom(z[j]) { assert z[j] == s[dot + 1 + j]; }
    }
    assert MatchesAt(s, k, dot);
  }

  /** A string without `@` never matches. */
  lemma NoAtNoMatch(s: string)
    requires '@' !in s
    ensures !MatchesPattern(s)
  {
    assert forall i :: 0 <= i < |s| ==> s[i] != '@';
  }

  /** No string with whitespace anywhere in it matches. */
  lemma PatternRejectsSpace(s: string, i: int)
    requires 0 <= i < |s| && IsSpace(s[i])
    ensures !MatchesPattern(s)
  {
    if MatchesPattern(s) {
      PatternPassesCheck(s);
    }
  }
}
