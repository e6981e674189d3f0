/** `CertificateGenerator.validate_email`: `re.match` of the anchored pattern
    `^[a-zA-Z0-9._%+-]+@[a-zA-Z0-9.-]+\.[a-zA-Z]{2,}$`, as a boolean. */
module EmailCheck {
  import opened PyStr

  /** The character class of the part before the '@'. */
  predicate IsLocalChar(c: char) {
    IsAsciiLetter(c) || IsAsciiDigit(c) || c == '.' || c == '_' || c == '%' || c == '+' || c == '-'
  }

  /** The character class of the part between the '@' and the final '.'. */
  predicate IsDomainChar(c: char) {
    IsAsciiLetter(c) || IsAsciiDigit(c) || c == '.' || c == '-'
  }

  predicate AllLocal(s: string) { forall i :: 0 <= i < |s| ==> IsLocalChar(s[i]) }
  predicate AllDomain(s: string) { forall i :: 0 <= i < |s| ==> IsDomainChar(s[i]) }
  predicate AllLetters(s: string) { forall i :: 0 <= i < |s| ==> IsAsciiLetter(s[i]) }

  /** One way for the whole of `s` to match the pattern: `s[..at]` is the
      local part, `s[at]` the '@', `s[at + 1..dot]` the domain run, `s[dot]`
      the escaped '.', and `s[dot + 1..]` the two or more letters. */
  ghost predicate MatchesAt(s: string, at: int, dot: int) {
    0 < at && at + 1 < dot && dot + 3 <= |s| &&
    AllLocal(s[..at]) && s[at] == '@' && AllDomain(s[at + 1..dot]) &&
    s[dot] == '.' && AllLetters(s[dot + 1..])
  }

  /** The pattern matches the whole of `s` (the regex may backtrack to any split). */
  ghost predicate FullMatch(s: string) {
    exists at, dot :: MatchesAt(s, at, dot)
  }

  /** What `re.match` accepts: `^` anchors at the start, and `$` (without
      MULTILINE) matches at the end or just before one final newline. */
  ghost predicate PatternMatches(s: string) {
    FullMatch(s) || (|s| > 0 && s[|s| - 1] == '\n' && FullMatch(s[..|s| - 1]))
  }

  /** A scan that decides `FullMatch` without backtracking: the local part
      cannot hold '@', so it ends at the first '@'; the final letters cannot
      hold '.', so they start after the last '.'. */
  function AddressShape(s: string): bool {
    var at := FirstIndexOf(s, '@');
    at < |s| &&
    var domain := s[at + 1..];
    var dot := LastIndexOf(domain, '.');
    0 < at && 0 < dot && dot + 3 <= |domain| &&
    AllLocal(s[..at]) && AllDomain(domain[..dot]) && AllLetters(domain[dot + 1..])
  }

  /** `validate_email(email)`; it never raises. */
  function ValidateEmail(email: string): bool {
    AddressShape(email) ||
    (|email| > 0 && email[|email| - 1] == '\n' && AddressShape(email[..|email| - 1]))
  }

  /** With a '@'-free prefix before it, a '@' is the first one. */
  lemma FirstAt(s: string, a: int)
    requires 0 <= a < |s| && AllLocal(s[..a]) && s[a] == '@'
    ensures FirstIndexOf(s, '@') == a
  {
    assert forall j :: 0 <= j < a ==> s[j] == s[..a][j];
  }

  /** With only letters after it, a '.' is the last one. */
  lemma LastDot(d: string, k: int)
    requires 0 <= k < |d| && d[k] == '.' && AllLetters(d[k + 1..])
    ensures LastIndexOf(d, '.') == k
  {
    assert forall j :: k < j < |d| ==> d[j] == d[k + 1..][j - k - 1];
  }

  lemma AddressShapeSound(s: string)
    requires AddressShape(s)
    ensures FullMatch(s)
  {
    var at := FirstIndexOf(s, '@');
    var domain := s[at + 1..];
    var dot := LastIndexOf(domain, '.');
    assert s[at + 1..at + 1 + dot] == domain[..dot];
    assert s[at + 1 + dot + 1..] == domain[dot + 1..];
    assert MatchesAt(s, at, at + 1 + dot);
  }

  lemma AddressShapeComplete(s: string, a: int, d: int)
    requires MatchesAt(s, a, d)
    ensures AddressShape(s)
  {
    FirstAt(s, a);
    var domain := s[a + 1..];
    assert domain[d - a - 1] == '.';
    assert domain[d - a..] == s[d + 1..];
    LastDot(domain, d - a - 1);
    assert domain[..d - a - 1] == s[a + 1..d];
  }

  /** The scan accepts exactly the strings the pattern matches in full. */
  lemma AddressShapeIsFullMatch(s: string)
    ensures AddressShape(s) <==> FullMatch(s)
  {
    if AddressShape(s) {
      AddressShapeSound(s);
    }
    if FullMatch(s) {
      var a, d :| MatchesAt(s, a, d);
      AddressShapeComplete(s, a, d);
    }
  }

  /** `validate_email` returns True exactly when the anchored pattern matches. */
  lemma ValidateEmailMatchesPattern(email: string)
    ensures ValidateEmail(email) <==> PatternMatches(email)
  {
    AddressShapeIsFullMatch(email);
    if |email| > 0 {
      AddressShapeIsFullMatch(email[..|email| - 1]);
    }
  }

  /** Neither '@' nor whitespace belongs to the local part's class. */
  lemma LocalChars(t: string)
    requires AllLocal(t)
    ensures forall j :: 0 <= j < |t| ==> t[j] != '@' && !IsSpace(t[j])
  {
  }

  /** Neither '@' nor whitespace belongs to the domain run's class. */
  lemma DomainChars(t: string)
    requires AllDomain(t)
    ensures forall j :: 0 <= j < |t| ==> t[j] != '@' && !IsSpace(t[j])
  {
  }

  /** Neither '@' nor whitespace is a letter. */
  lemma LetterChars(t: string)
    requires AllLetters(t)
    ensures forall j :: 0 <= j < |t| ==> t[j] != '@' && !IsSpace(t[j])
  {
  }

  /** A string free of '@' and whitespace on both sides of one '@' (a '.'
      allowed in the part after it) is free of them everywhere else. */
  lemma AroundAt(s: string, at: nat, domain: string, dot: int)
    requires at < |s| && s[at] == '@' && domain == s[at + 1..] && 0 <= dot < |domain| && domain[dot] == '.'
    requires forall j :: 0 <= j < at ==> s[j] != '@' && !IsSpace(s[j])
    requires forall j :: 0 <= j < |domain| && j != dot ==> domain[j] != '@' && !IsSpace(domain[j])
    ensures forall j :: 0 <= j < |s| && j != at ==> s[j] != '@' && !IsSpace(s[j])
  {
    forall j | at < j < |s|
      ensures s[j] != '@' && !IsSpace(s[j])
    {
      assert s[j] == domain[j - at - 1];
    }
  }

  /** The part after the '@' holds neither '@' nor whitespace, except that
      its final '.' is a '.'. */
  lemma DomainSide(domain: string, dot: int)
    requires 0 <= dot < |domain| && domain[dot] == '.'
    requires AllDomain(domain[..dot]) && AllLetters(domain[dot + 1..])
    ensures forall j :: 0 <= j < |domain| && j != dot ==> domain[j] != '@' && !IsSpace(domain[j])
  {
    DomainChars(domain[..dot]);
    LetterChars(domain[dot + 1..]);
    forall j | 0 <= j < |domain| && j != dot
      ensures domain[j] != '@' && !IsSpace(domain[j])
    {
      if j < dot {
        assert domain[j] == domain[..dot][j];
      } else {
        assert domain[j] == domain[dot + 1..][j - dot - 1];
      }
    }
  }

  /** The local part holds neither '@' nor whitespace. */
  lemma LocalSide(s: string, at: nat)
    requires at <= |s| && AllLocal(s[..at])
    ensures forall j :: 0 <= j < at ==> s[j] != '@' && !IsSpace(s[j])
  {
    LocalChars(s[..at]);
    forall j | 0 <= j < at
      ensures s[j] != '@' && !IsSpace(s[j])
    {
      assert s[j] == s[..at][j];
    }
  }

  /** What a shape-conforming address is made of, position by position. */
  lemma AddressShapeChars(s: string)
    requires AddressShape(s)
    ensures forall j :: 0 <= j < |s| && j != FirstIndexOf(s, '@') ==> s[j] != '@' && !IsSpace(s[j])
  {
    var at := FirstIndexOf(s, '@');
    var domain := s[at + 1..];
    var dot := LastIndexOf(domain, '.');
    LocalSide(s, at);
    DomainSide(domain, dot);
    AroundAt(s, at, domain, dot);
  }

  /** A string with one '@' past its first character, and neither '@' nor
      whitespace anywhere else, has exactly one '@' and no whitespace. */
  lemma OneAtNoSpace(s: string, at: int)
    requires 0 < at < |s| && s[at] == '@'
    requires forall j :: 0 <= j < |s| && j != at ==> s[j] != '@' && !IsSpace(s[j])
    ensures exists a ::
      (0 < a < |s| && s[a] == '@' && forall j :: 0 <= j < |s| && j != a ==> s[j] != '@')
    ensures forall j :: 0 <= j < |s| ==> !IsSpace(s[j])
  {
  }

  /** Appending a newline to such a string adds neither '@' nor any other
      whitespace. */
  lemma OneAtThenNewline(s: string, email: string, at: int)
    requires email == s + ['\n']
    requires 0 < at < |s| && s[at] == '@'
    requires forall j :: 0 <= j < |s| && j != at ==> s[j] != '@' && !IsSpace(s[j])
    ensures exists a ::
      (0 < a < |email| && email[a] == '@' && forall j :: 0 <= j < |email| && j != a ==> email[j] != '@')
    ensures forall j :: 0 <= j < |email| && IsSpace(email[j]) ==> j == |email| - 1 && email[j] == '\n'
  {
    assert forall j :: 0 <= j < |s| ==> email[j] == s[j];
    assert email[at] == '@';
  }

  /** An accepted address holds exactly one '@', and no whitespace other
      than one final newline. */
  lemma ValidEmailHasOneAt(email: string)
    requires ValidateEmail(email)
    ensures exists at ::
      (0 < at < |email| && email[at] == '@' &&
       forall j :: 0 <= j < |email| && j != at ==> email[j] != '@')
    ensures forall j :: 0 <= j < |email| && IsSpace(email[j]) ==> j == |email| - 1 && email[j] == '\n'
  {
    if AddressShape(email) {
      AddressShapeChars(email);
      OneAtNoSpace(email, FirstIndexOf(email, '@'));
    } else {
      var s := email[..|email| - 1];
      AddressShapeChars(s);
      assert email == s + ['\n'];
      OneAtThenNewline(s, email, FirstIndexOf(s, '@'));
    }
  }
}
