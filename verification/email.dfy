/** The email gate of UserManager::isValidEmail: a length bound followed by
    the case-insensitive pattern ^[A-Z0-9._%+-]+@[A-Z0-9.-]+\.[A-Z]{2,4}$. */
module Email {
  import opened Common

  const MaxEmailLength := 32

  predicate IsAsciiLetter(c: char)
  {
    'A' <= c <= 'Z' || 'a' <= c <= 'z'
  }

  predicate IsAsciiDigit(c: char)
  {
    '0' <= c <= '9'
  }

  /** The class [A-Z0-9._%+-] under the case-insensitive flag. */
  predicate IsLocalChar(c: char)
  {
    IsAsciiLetter(c) || IsAsciiDigit(c) || c == '.' || c == '_' || c == '%' || c == '+' || c == '-'
  }

  /** The class [A-Z0-9.-] under the case-insensitive flag. */
  predicate IsDomainChar(c: char)
  {
    IsAsciiLetter(c) || IsAsciiDigit(c) || c == '.' || c == '-'
  }

  /** `s` splits at `at` and `dot` into local part, '@', domain, '.' and a
      two-to-four letter top-level label, as the whole-string pattern demands. */
  ghost predicate SplitsAsEmail(s: string, at: int, dot: int)
  {
    && 1 <= at && at + 1 < dot && dot < |s|
    && s[at] == '@' && s[dot] == '.'
    && All(s[..at], IsLocalChar)
    && All(s[at + 1..dot], IsDomainChar)
    && 2 <= |s| - (dot + 1) <= 4
    && All(s[dot + 1..], IsAsciiLetter)
  }

  /** The regular expression matches `s` (some split works; the regex
      engine backtracks until it finds one). */
  ghost predicate MatchesEmailPattern(s: string)
  {
    exists at, dot :: SplitsAsEmail(s, at, dot)
  }

  /** Index of the last occurrence of `c` in `s`. */
  function LastIndexOf(s: string, c: char): (r: Option<nat>)
    ensures r.Some? ==> r.value < |s| && s[r.value] == c
    ensures r.Some? ==> forall j :: r.value < j < |s| ==> s[j] != c
    ensures r.None? <==> forall j :: 0 <= j < |s| ==> s[j] != c
  {
    if |s| == 0 then None
    else if s[|s| - 1] == c then Some(|s| - 1)
    else LastIndexOf(s[..|s| - 1], c)
  }

  /** Matching without backtracking: the '@' must be the first one (the
      local part has none) and the '.' before the label must be the last one
      (the label has none). */
  function HasEmailShape(s: string): bool
  {
    match FirstIndex(s, (c: char) => c == '@')
    case None => false
    case Some(at) =>
      var rest := s[at + 1..];
      match LastIndexOf(rest, '.')
      case None => false
      case Some(k) =>
        && at >= 1 && k >= 1
        && All(s[..at], IsLocalChar)
        && All(rest[..k], IsDomainChar)
        && 2 <= |rest| - (k + 1) <= 4
        && All(rest[k + 1..], IsAsciiLetter)
  }

  lemma ShapeGivesPattern(s: string)
    requires HasEmailShape(s)
    ensures MatchesEmailPattern(s)
  {
    var at := FirstIndex(s, (c: char) => c == '@').value;
    var rest := s[at + 1..];
    var k := LastIndexOf(rest, '.').value;
    var dot := at + 1 + k;
    assert s[at + 1..dot] == rest[..k];
    assert s[dot + 1..] == rest[k + 1..];
    assert SplitsAsEmail(s, at, dot);
  }

  /** Any split the pattern admits puts '@' at its first occurrence. */
  lemma SplitAtFirstAt(s: string, at: int, dot: int)
    requires SplitsAsEmail(s, at, dot)
    ensures FirstIndex(s, (c: char) => c == '@') == Some(at)
  {
    forall j | 0 <= j < at ensures s[j] != '@' {
      assert IsLocalChar(s[..at][j]);
    }
  }

  /** Any split the pattern admits puts the label's '.' at the last '.'
      after the '@'. */
  lemma SplitAtLastDot(s: string, at: int, dot: int)
    requires SplitsAsEmail(s, at, dot)
    ensures LastIndexOf(s[at + 1..], '.') == Some(dot - at - 1)
  {
    var rest := s[at + 1..];
    var k := dot - at - 1;
    forall j | k < j < |rest| ensures rest[j] != '.' {
      assert rest[j] == s[dot + 1..][j - k - 1];
      assert IsAsciiLetter(s[dot + 1..][j - k - 1]);
    }
    var last := LastIndexOf(rest, '.');
    assert rest[k] == '.';
  }

  lemma PatternGivesShape(s: string)
    requires MatchesEmailPattern(s)
    ensures HasEmailShape(s)
  {
    var at, dot :| SplitsAsEmail(s, at, dot);
    SplitAtFirstAt(s, at, dot);
    SplitAtLastDot(s, at, dot);
    var rest := s[at + 1..];
    var k := dot - at - 1;
    assert rest[..k] == s[at + 1..dot];
    assert rest[k + 1..] == s[dot + 1..];
  }

  /** The direct scan agrees with the pattern, in both directions. */
  lemma HasEmailShapeIffPattern(s: string)
    ensures HasEmailShape(s) <==> MatchesEmailPattern(s)
  {
    if HasEmailShape(s) {
      ShapeGivesPattern(s);
    }
    if MatchesEmailPattern(s) {
      PatternGivesShape(s);
    }
  }

  /** UserManager::isValidEmail. */
  function IsValidEmail(email: string): (valid: bool)
    ensures valid <==> 1 <= |email| <= MaxEmailLength && MatchesEmailPattern(email)
  {
    HasEmailShapeIffPattern(email);
    if |email| > MaxEmailLength || |email| < 1 then false
    else HasEmailShape(email)
  }

  /** A valid address is plain ASCII without NUL, so its Latin-1 bytes and
      its C-string form are exact. */
  lemma ValidEmailIsPlainAscii(email: string)
    requires IsValidEmail(email)
    ensures forall i :: 0 <= i < |email| ==> ' ' < email[i] < '\U{7f}'
    ensures TextBeforeNul(email) == email
  {
    var at, dot :| SplitsAsEmail(email, at, dot);
    forall i | 0 <= i < |email| ensures ' ' < email[i] < '\U{7f}' {
      if i < at {
        assert IsLocalChar(email[..at][i]);
      } else if at < i < dot {
        assert IsDomainChar(email[at + 1..dot][i - at - 1]);
      } else if dot < i {
        assert IsAsciiLetter(email[dot + 1..][i - dot - 1]);
      }
    }
    var t := TextBeforeNul(email);
    if |t| < |email| {
      assert false;
    }
  }
}
