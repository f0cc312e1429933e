/** The student form's email check: the fixed pattern
      ^[a-zA-Z0-9._-]+@[a-zA-Z0-9.-]+\.[a-zA-Z]{2,6}$
    It is given twice: `MatchesPattern` says declaratively which strings the
    pattern accepts (local part, '@', domain, '.', top-level segment), and
    `ValidateEmail` decides it by locating the first '@' and the last '.'.
    `ValidateEmailCorrect` proves the two agree on every string. */
module Email {

  predicate IsLetter(c: char) {
    'a' <= c <= 'z' || 'A' <= c <= 'Z'
  }

  predicate IsDigit(c: char) {
    '0' <= c <= '9'
  }

  /** The class [a-zA-Z0-9._-] */
  predicate IsLocalChar(c: char) {
    IsLetter(c) || IsDigit(c) || c == '.' || c == '_' || c == '-'
  }

  /** The class [a-zA-Z0-9.-] */
  predicate IsDomainChar(c: char) {
    IsLetter(c) || IsDigit(c) || c == '.' || c == '-'
  }

  /** [a-zA-Z0-9._-]+ */
  predicate LocalPart(l: string) {
    |l| >= 1 && forall i | 0 <= i < |l| :: IsLocalChar(l[i])
  }

  /** [a-zA-Z0-9.-]+ */
  predicate DomainPart(d: string) {
    |d| >= 1 && forall i | 0 <= i < |d| :: IsDomainChar(d[i])
  }

  /** [a-zA-Z]{2,6} */
  predicate TopLevel(t: string) {
    2 <= |t| <= 6 && forall i | 0 <= i < |t| :: IsLetter(t[i])
  }

  /** The whole string, anchored at both ends, is local part '@' domain '.' top-level segment. */
  ghost predicate MatchesPattern(s: string) {
    exists l, d, t | LocalPart(l) && DomainPart(d) && TopLevel(t) :: s == l + "@" + d + "." + t
  }

  /** Position of the first `c` in `s`, or |s| when there is none. */
  function FirstIndexOf(s: string, c: char): (i: nat)
    ensures i <= |s|
    ensures i < |s| ==> s[i] == c
    ensures forall k | 0 <= k < i :: s[k] != c
  {
    if s == [] then 0
    else if s[0] == c then 0
    else 1 + FirstIndexOf(s[1..], c)
  }

  /** Position of the last `c` in `s`, or -1 when there is none. */
  function LastIndexOf(s: string, c: char): (i: int)
    ensures -1 <= i < |s|
    ensures 0 <= i ==> s[i] == c
    ensures forall k | i < k < |s| :: s[k] != c
  {
    if s == [] then -1
    else if s[|s| - 1] == c then |s| - 1
    else LastIndexOf(s[..|s| - 1], c)
  }

  /** The constructive check: the local part is everything before the first '@';
      the top-level segment is everything after the last '.' that follows it. */
  function ValidateEmail(s: string): (r: bool)
    ensures '@' !in s ==> !r
    ensures r ==> 6 <= |s| && IsLocalChar(s[0]) && IsLetter(s[|s| - 1])
  {
    var at := FirstIndexOf(s, '@');
    if at == |s| then false
    else
      var rest := s[at + 1..];
      var dot := LastIndexOf(rest, '.');
      var ok := dot >= 0 && LocalPart(s[..at]) && DomainPart(rest[..dot]) && TopLevel(rest[dot + 1..]);
      assert ok ==> s[0] == s[..at][0] && s[|s| - 1] == rest[dot + 1..][|rest| - dot - 2];
      ok
  }

  /** The first '@' of l + "@" + rest is the one after l, when l holds none. */
  lemma FirstAtAfter(l: string, rest: string)
    requires '@' !in l
    ensures FirstIndexOf(l + "@" + rest, '@') == |l|
    ensures (l + "@" + rest)[..|l|] == l
    ensures (l + "@" + rest)[|l| + 1..] == rest
  {
    var s := l + "@" + rest;
    assert s[|l|] == '@';
    assert forall k | 0 <= k < |l| :: s[k] == l[k];
  }

  lemma NoDotAfter(d: string, t: string)
    requires forall k | 0 <= k < |t| :: t[k] != '.'
    ensures forall k | |d| < k < |d + "." + t| :: (d + "." + t)[k] != '.'
  {
    var head := d + ".";
    var s := head + t;
    forall k | |head| <= k < |s| ensures s[k] != '.' {
      assert s[k] == t[k - |head|];
    }
  }

  /** The last '.' of d + "." + t is the one after d, when t holds none. */
  lemma LastDotBefore(d: string, t: string)
    requires forall k | 0 <= k < |t| :: t[k] != '.'
    ensures LastIndexOf(d + "." + t, '.') == |d|
  {
    NoDotAfter(d, t);
    assert (d + "." + t)[|d|] == '.';
  }

  lemma SlicesAroundDot(d: string, t: string)
    ensures (d + "." + t)[..|d|] == d
    ensures (d + "." + t)[|d| + 1..] == t
  {
  }

  /** A sequence is the part before position i, the element at i, and the rest. */
  lemma SplitAround(s: string, i: int)
    requires 0 <= i < |s|
    ensures s == s[..i] + [s[i]] + s[i + 1..]
  {
  }

  lemma LocalHasNoAt(l: string)
    requires LocalPart(l)
    ensures '@' !in l
  {
    forall k | 0 <= k < |l| ensures l[k] != '@' { assert IsLocalChar(l[k]); }
  }

  lemma TopLevelHasNoDot(t: string)
    requires TopLevel(t)
    ensures forall k | 0 <= k < |t| :: t[k] != '.' && t[k] != '@'
    ensures '@' !in t
  {
    forall k | 0 <= k < |t| ensures t[k] != '.' && t[k] != '@' { assert IsLetter(t[k]); }
  }

  lemma DomainHasNoAt(d: string)
    requires DomainPart(d)
    ensures '@' !in d
  {
    forall k | 0 <= k < |d| ensures d[k] != '@' { assert IsDomainChar(d[k]); }
  }

  /** In an accepted string the first '@' sits right after the local part, and
      the last '.' right after the domain part. */
  lemma SplitPositions(l: string, d: string, t: string)
    requires LocalPart(l) && DomainPart(d) && TopLevel(t)
    ensures var s := l + "@" + d + "." + t;
      && s == l + "@" + (d + "." + t)
      && FirstIndexOf(s, '@') == |l|
      && s[..|l|] == l
      && s[|l| + 1..] == d + "." + t
      && LastIndexOf(d + "." + t, '.') == |d|
      && (d + "." + t)[..|d|] == d
      && (d + "." + t)[|d| + 1..] == t
  {
    LocalHasNoAt(l);
    TopLevelHasNoDot(t);
    assert l + "@" + d + "." + t == l + "@" + (d + "." + t);
    FirstAtAfter(l, d + "." + t);
    LastDotBefore(d, t);
    SlicesAroundDot(d, t);
  }

  /** Every string `ValidateEmail` accepts matches the pattern. */
  lemma ValidateEmailSound(s: string)
    requires ValidateEmail(s)
    ensures MatchesPattern(s)
  {
    var at := FirstIndexOf(s, '@');
    var rest := s[at + 1..];
    var dot := LastIndexOf(rest, '.');
    var l, d, t := s[..at], rest[..dot], rest[dot + 1..];
    Reassemble(s, at, dot);
    MatchesParts(l, d, t);
  }

  lemma MatchesParts(l: string, d: string, t: string)
    requires LocalPart(l) && DomainPart(d) && TopLevel(t)
    ensures MatchesPattern(l + "@" + d + "." + t)
  {
  }

  /** Cutting at an '@' and then at a '.' after it, and gluing back, gives the string. */
  lemma Reassemble(s: string, at: int, dot: int)
    requires 0 <= at < |s| && s[at] == '@'
    requires 0 <= dot < |s[at + 1..]| && s[at + 1..][dot] == '.'
    ensures s == s[..at] + "@" + s[at + 1..][..dot] + "." + s[at + 1..][dot + 1..]
  {
    var rest := s[at + 1..];
    SplitAround(s, at);
    SplitAround(rest, dot);
    assert s == s[..at] + "@" + (rest[..dot] + "." + rest[dot + 1..]);
  }

  /** Every string matching the pattern is accepted by `ValidateEmail`. */
  lemma ValidateEmailComplete(s: string)
    requires MatchesPattern(s)
    ensures ValidateEmail(s)
  {
    var l, d, t :| LocalPart(l) && DomainPart(d) && TopLevel(t) && s == l + "@" + d + "." + t;
    SplitPositions(l, d, t);
  }

  lemma ValidateEmailCorrect(s: string)
    ensures ValidateEmail(s) <==> MatchesPattern(s)
  {
    if ValidateEmail(s) {
      ValidateEmailSound(s);
    }
    if MatchesPattern(s) {
      ValidateEmailComplete(s);
    }
  }

  /** The pattern is unambiguous: an accepted string splits in exactly one way. */
  lemma SplitIsUnique(l: string, d: string, t: string, l': string, d': string, t': string)
    requires LocalPart(l) && DomainPart(d) && TopLevel(t)
    requires LocalPart(l') && DomainPart(d') && TopLevel(t')
    requires l + "@" + d + "." + t == l' + "@" + d' + "." + t'
    ensures l == l' && d == d' && t == t'
  {
    var s := l + "@" + d + "." + t;
    SplitPositions(l, d, t);
    SplitPositions(l', d', t');
    assert l == s[..|l|];
    assert l' == s[..|l'|];
    var rest := d + "." + t;
    assert d == rest[..|d|] && t == rest[|d| + 1..];
    assert d' == rest[..|d'|] && t' == rest[|d'| + 1..];
  }

  lemma SingleAtParts(l: string, d: string, t: string)
    requires LocalPart(l) && DomainPart(d) && TopLevel(t)
    ensures var s := l + "@" + d + "." + t;
      && multiset(s)['@'] == 1
      && FirstIndexOf(s, '@') < |s|
      && '@' !in s[FirstIndexOf(s, '@') + 1..]
  {
    var s := l + "@" + d + "." + t;
    var rest := d + "." + t;
    SplitPositions(l, d, t);
    LocalHasNoAt(l);
    DomainHasNoAt(d);
    TopLevelHasNoDot(t);
    assert '@' !in rest;
    assert multiset(rest)['@'] == 0;
    assert multiset(l)['@'] == 0;
    assert s == (l + "@") + rest;
    assert multiset(l + "@") == multiset(l) + multiset("@");
    assert multiset(s) == multiset(l + "@") + multiset(rest);
  }

  /** An accepted address holds exactly one '@', and none after it. */
  lemma SingleAt(s: string)
    requires MatchesPattern(s)
    ensures multiset(s)['@'] == 1
    ensures var at := FirstIndexOf(s, '@'); at < |s| && '@' !in s[at + 1..]
  {
    var l, d, t :| LocalPart(l) && DomainPart(d) && TopLevel(t) && s == l + "@" + d + "." + t;
    SingleAtParts(l, d, t);
  }

  /** A string with no '@' at all is rejected. */
  lemma NoAtRejected(s: string)
    requires '@' !in s
    ensures !MatchesPattern(s)
  {
    forall l, d, t | LocalPart(l) && DomainPart(d) && TopLevel(t)
      ensures s != l + "@" + d + "." + t
    {
      assert (l + "@" + d + "." + t)[|l|] == '@';
    }
  }
}
