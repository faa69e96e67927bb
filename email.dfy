/**
 * The syntactic e-mail check used by the contact form: no line breaks (so the
 * address cannot inject mail headers), then the whole string must match
 * `[A-Za-z0-9._%+-]+@[A-Za-z0-9.-]+\.[A-Za-z]{2,}`.
 */
module Email {

  predicate IsAsciiLetter(c: char) {
    'A' <= c <= 'Z' || 'a' <= c <= 'z'
  }

  predicate IsDigit(c: char) {
    '0' <= c <= '9'
  }

  /** The class `[A-Za-z0-9._%+-]` of the part before the `@`. */
  predicate IsLocalChar(c: char) {
    IsAsciiLetter(c) || IsDigit(c) || c == '.' || c == '_' || c == '%' || c == '+' || c == '-'
  }

  /** The class `[A-Za-z0-9.-]` of the domain name. */
  predicate IsDomainChar(c: char) {
    IsAsciiLetter(c) || IsDigit(c) || c == '.' || c == '-'
  }

  predicate AllLocal(s: string) {
    forall i :: 0 <= i < |s| ==> IsLocalChar(s[i])
  }

  predicate AllDomain(s: string) {
    forall i :: 0 <= i < |s| ==> IsDomainChar(s[i])
  }

  predicate AllLetters(s: string) {
    forall i :: 0 <= i < |s| ==> IsAsciiLetter(s[i])
  }

  /**
   * The pattern read as the regular expression reads it: `s` splits at some
   * `@` and some later `.` into a non-empty local part, a non-empty domain and
   * a top-level domain of at least two letters.
   */
  ghost predicate MatchesEmailPattern(s: string) {
    exists at, dot ::
      1 <= at && at + 2 <= dot && dot + 3 <= |s| && s[at] == '@' && s[dot] == '.'
      && AllLocal(s[..at]) && AllDomain(s[at + 1..dot]) && AllLetters(s[dot + 1..])
  }

  /** The index of the first `c` in `s`, or `|s|` when there is none. */
  function IndexOf(s: string, c: char): (k: nat)
    ensures k <= |s|
    ensures k < |s| ==> s[k] == c
    ensures forall j :: 0 <= j < k ==> s[j] != c
  {
    if s == [] || s[0] == c then 0 else 1 + IndexOf(s[1..], c)
  }

  /** The index of the last `c` in `s`, or -1 when there is none. */
  function LastIndexOf(s: string, c: char): (k: int)
    ensures -1 <= k < |s|
    ensures k >= 0 ==> s[k] == c
    ensures forall j :: k < j < |s| ==> s[j] != c
  {
    if s == [] then -1
    else if s[|s| - 1] == c then |s| - 1
    else LastIndexOf(s[..|s| - 1], c)
  }

  /**
   * The pattern decided by scanning: the local part runs up to the first `@`
   * (the local class has no `@`), and the top-level domain starts after the
   * last `.` (letters hold no `.`).
   */
  function MatchesEmail(s: string): bool {
    var at := IndexOf(s, '@');
    0 < at < |s| && AllLocal(s[..at]) && MatchesDomain(s[at + 1..])
  }

  /** What follows the `@`: a non-empty domain, the last `.`, and two letters or more. */
  function MatchesDomain(rest: string): bool {
    var dot := LastIndexOf(rest, '.');
    1 <= dot && dot + 3 <= |rest| && AllDomain(rest[..dot]) && AllLetters(rest[dot + 1..])
  }

  /** A split at `at` and `dot` of the shape the pattern asks for is a match. */
  lemma PatternAt(s: string, at: nat, dot: nat)
    requires 1 <= at && at + 2 <= dot && dot + 3 <= |s| && s[at] == '@' && s[dot] == '.'
    requires AllLocal(s[..at]) && AllDomain(s[at + 1..dot]) && AllLetters(s[dot + 1..])
    ensures MatchesEmailPattern(s)
  {
  }

  /** Every string the scan accepts matches the pattern. */
  lemma MatchesEmailSound(s: string)
    requires MatchesEmail(s)
    ensures MatchesEmailPattern(s)
  {
    var at := IndexOf(s, '@');
    var rest := s[at + 1..];
    var dot := LastIndexOf(rest, '.');
    var d := at + 1 + dot;
    assert s[at + 1..d] == rest[..dot];
    assert s[d + 1..] == rest[dot + 1..];
    PatternAt(s, at, d);
  }

  /** The `@` after a run of local-part characters is the first `@`. */
  lemma FirstAt(s: string, a: nat)
    requires a < |s| && s[a] == '@' && AllLocal(s[..a])
    ensures IndexOf(s, '@') == a
  {
  }

  /** The `.` before a run of letters is the last `.`. */
  lemma LastDot(s: string, k: nat)
    requires k < |s| && s[k] == '.' && AllLetters(s[k + 1..])
    ensures LastIndexOf(s, '.') == k
  {
  }

  /** The part after the `@` of a split the pattern accepts is accepted by the domain scan. */
  lemma DomainAt(s: string, a: nat, d: nat)
    requires a + 2 <= d && d + 3 <= |s| && s[d] == '.'
    requires AllDomain(s[a + 1..d]) && AllLetters(s[d + 1..])
    ensures MatchesDomain(s[a + 1..])
  {
    var rest := s[a + 1..];
    var k := d - a - 1;
    assert rest[..k] == s[a + 1..d];
    assert rest[k + 1..] == s[d + 1..];
    LastDot(rest, k);
  }

  /** A split the pattern accepts is accepted by the scan. */
  lemma ScanAt(s: string, a: nat, d: nat)
    requires 1 <= a && a + 2 <= d && d + 3 <= |s| && s[a] == '@' && s[d] == '.'
    requires AllLocal(s[..a]) && AllDomain(s[a + 1..d]) && AllLetters(s[d + 1..])
    ensures MatchesEmail(s)
  {
    FirstAt(s, a);
    DomainAt(s, a, d);
  }

  /** Every string matching the pattern is accepted by the scan. */
  lemma MatchesEmailComplete(s: string)
    requires MatchesEmailPattern(s)
    ensures MatchesEmail(s)
  {
    var a, d :|
      1 <= a && a + 2 <= d && d + 3 <= |s| && s[a] == '@' && s[d] == '.'
      && AllLocal(s[..a]) && AllDomain(s[a + 1..d]) && AllLetters(s[d + 1..]);
    ScanAt(s, a, d);
  }

  /** The scan accepts exactly the strings the pattern matches. */
  lemma MatchesEmailIff(s: string)
    ensures MatchesEmail(s) <==> MatchesEmailPattern(s)
  {
    if MatchesEmail(s) { MatchesEmailSound(s); }
    if MatchesEmailPattern(s) { MatchesEmailComplete(s); }
  }

  /**
   * `looks_like_email`: false for any address containing a line feed or a
   * carriage return, otherwise true exactly when the whole address matches
   * the pattern.
   */
  function LooksLikeEmail(addr: string): (ok: bool)
    ensures ok <==> '\n' !in addr && '\r' !in addr && MatchesEmailPattern(addr)
  {
    if '\n' in addr || '\r' in addr then false
    else
      MatchesEmailIff(addr);
      MatchesEmail(addr)
  }

  /** An address carrying a header-injection attempt is refused. */
  lemma InjectionRefused()
    ensures !LooksLikeEmail("bad\r\nInjected: 1")
    ensures !LooksLikeEmail("user@example.org\n")
  {
  }

  /**
   * Any address assembled from a local part, a domain and a top-level
   * domain of at least two letters, each drawn from its class, is accepted.
   */
  lemma WellFormedAddressAccepted(local: string, domain: string, tld: string)
    requires |local| >= 1 && AllLocal(local)
    requires |domain| >= 1 && AllDomain(domain)
    requires |tld| >= 2 && AllLetters(tld)
    ensures LooksLikeEmail(local + "@" + domain + "." + tld)
  {
    var s := local + "@" + domain + "." + tld;
    var a := |local|;
    var d := a + 1 + |domain|;
    assert s[..a] == local;
    assert s[a + 1..d] == domain;
    assert s[d + 1..] == tld;
    PatternAt(s, a, d);
    assert '\n' !in s && '\r' !in s by {
      forall k | 0 <= k < |s| ensures s[k] != '\n' && s[k] != '\r' {
        if k < a { assert s[k] == local[k]; }
        else if a < k < d { assert s[k] == domain[k - a - 1]; }
        else if d < k { assert s[k] == tld[k - d - 1]; }
      }
    }
  }

  /** A one-letter top-level domain is refused. */
  lemma ShortTopLevelDomainRefused()
    ensures !LooksLikeEmail("u@h.c")
  {
  }
}
