/** The password policy of UserManager::isValidePassword: length bounds, a
    character whitelist, and per-class minimum counts reported in a fixed
    priority order. */
module Password {
  import opened Common

  /** The thresholds isValidePassword takes as parameters. Their default
      values live in UserManager.h, which is not part of this model. */
  datatype Policy = Policy(
    upperCaseNum: nat,
    specialLetterNum: nat,
    digitNum: nat,
    lowerCaseNum: nat,
    length: nat,
    maxLength: nat)

  predicate IsDigitByte(b: Byte)
  {
    '0' as int <= b <= '9' as int
  }

  predicate IsUpperByte(b: Byte)
  {
    'A' as int <= b <= 'Z' as int
  }

  predicate IsLowerByte(b: Byte)
  {
    'a' as int <= b <= 'z' as int
  }

  /** The class [A-Z0-9._%+-@#!$&*] as the regex engine builds it under the
      case-insensitive flag: `+-@` is the range 0x2B..0x40, which already
      holds the digits, '.', ',', '/', ':', ';', '<', '=', '>' and '?', and
      case folding adds a-z. The message shown on failure lists fewer
      characters than this. */
  predicate IsAllowedByte(b: Byte)
  {
    || IsUpperByte(b)
    || IsLowerByte(b)
    || ('+' as int <= b <= '@' as int)
    || b == '_' as int || b == '%' as int || b == '#' as int || b == '!' as int
    || b == '$' as int || b == '&' as int || b == '*' as int
  }

  /** The anchored match ^[...]+$: at least one byte, and every byte allowed. */
  predicate PassesWhitelist(password: seq<Byte>)
  {
    |password| > 0 && All(password, IsAllowedByte)
  }

  /** The four tallies of the counting scan. */
  datatype CharClass = Upper | Special | Digit | Lower

  /** How the scan files one byte: QChar::isDigit first, then isLetter split
      by isUpper / isLower, and everything else as special. The ASCII tests
      are exact here because the whitelist has already rejected every byte
      above 0x7F by the time the scan runs. */
  function ClassOf(b: Byte): CharClass
  {
    if IsDigitByte(b) then Digit
    else if IsUpperByte(b) then Upper
    else if IsLowerByte(b) then Lower
    else Special
  }

  datatype Tally = Tally(upper: nat, special: nat, digit: nat, lower: nat)

  function CountOf(t: Tally, c: CharClass): nat
  {
    match c
    case Upper => t.upper
    case Special => t.special
    case Digit => t.digit
    case Lower => t.lower
  }

  function Threshold(p: Policy, c: CharClass): nat
  {
    match c
    case Upper => p.upperCaseNum
    case Special => p.specialLetterNum
    case Digit => p.digitNum
    case Lower => p.lowerCaseNum
  }

  function Bump(t: Tally, c: CharClass): (r: Tally)
    ensures CountOf(r, c) == CountOf(t, c) + 1
    ensures forall d :: d != c ==> CountOf(r, d) == CountOf(t, d)
  {
    match c
    case Upper => t.(upper := t.upper + 1)
    case Special => t.(special := t.special + 1)
    case Digit => t.(digit := t.digit + 1)
    case Lower => t.(lower := t.lower + 1)
  }

  /** The tallies of a whole byte string. */
  function Count(s: seq<Byte>): Tally
  {
    if |s| == 0 then Tally(0, 0, 0, 0)
    else Bump(Count(s[..|s| - 1]), ClassOf(s[|s| - 1]))
  }

  /** Every class reaches its threshold. */
  predicate Meets(t: Tally, p: Policy)
  {
    forall c :: CountOf(t, c) >= Threshold(p, c)
  }

  /** Meets, spelled out field by field as the scan tests it. */
  lemma MeetsByField(t: Tally, p: Policy)
    ensures Meets(t, p) <==>
      && t.upper >= p.upperCaseNum && t.special >= p.specialLetterNum
      && t.digit >= p.digitNum && t.lower >= p.lowerCaseNum
  {
    if t.upper >= p.upperCaseNum && t.special >= p.specialLetterNum
      && t.digit >= p.digitNum && t.lower >= p.lowerCaseNum
    {
      forall c ensures CountOf(t, c) >= Threshold(p, c) {
        match c
        case Upper =>
        case Special =>
        case Digit =>
        case Lower =>
      }
    }
    if Meets(t, p) {
      assert CountOf(t, Upper) >= Threshold(p, Upper);
      assert CountOf(t, Special) >= Threshold(p, Special);
      assert CountOf(t, Digit) >= Threshold(p, Digit);
      assert CountOf(t, Lower) >= Threshold(p, Lower);
    }
  }

  /** Tally `t` is no larger than `u` in any class. */
  predicate Below(t: Tally, u: Tally)
  {
    forall c :: CountOf(t, c) <= CountOf(u, c)
  }

  /** Counts only grow as the scan moves on: the tallies of a prefix are
      bounded by those of any longer prefix. */
  lemma {:induction false} CountGrows(s: seq<Byte>, i: nat, j: nat)
    requires i <= j <= |s|
    ensures Below(Count(s[..i]), Count(s[..j]))
    decreases j
  {
    if i < j {
      CountGrows(s, i, j - 1);
      assert s[..j][..j - 1] == s[..j - 1];
    }
  }

  /** Once the thresholds are met by a prefix, they are met by the whole
      string: the scan's early exit agrees with a check of the final counts. */
  lemma MetPrefixMeetsAll(s: seq<Byte>, i: nat, p: Policy)
    requires i <= |s|
    requires Meets(Count(s[..i]), p)
    ensures Meets(Count(s), p)
  {
    CountGrows(s, i, |s|);
    assert s[..|s|] == s;
  }

  datatype Problem =
    | TooShort(minLength: nat)
    | TooLong(maxLength: nat)
    | BadCharacters
    | Shortfall(cls: CharClass, required: nat)

  datatype Verdict = Accepted | Rejected(problem: Problem)

  /** The text isValidePassword checks: QString::fromLatin1 on a QByteArray
      (Qt 5) stops at the first zero byte, so the bounds, the whitelist and
      the scan all see only the bytes before it. Hashing and verification
      still use every byte. */
  function PasswordText(password: seq<Byte>): seq<Byte>
  {
    PrefixBeforeNul(password)
  }

  /** The decision isValidePassword takes, stated on the final tallies of
      the password's text: bounds first, then the whitelist, then the first
      unmet class in the order upper case, special, digit, lower case. */
  function Validate(password: seq<Byte>, p: Policy): (v: Verdict)
    ensures v == Accepted ==>
      && p.length <= |PasswordText(password)| <= p.maxLength
      && PassesWhitelist(PasswordText(password))
      && Meets(Count(PasswordText(password)), p)
    ensures v == Rejected(BadCharacters) ==>
      p.length <= |PasswordText(password)| <= p.maxLength && !PassesWhitelist(PasswordText(password))
    ensures v.Rejected? && v.problem.Shortfall? ==>
      && PassesWhitelist(PasswordText(password))
      && v.problem.required == Threshold(p, v.problem.cls)
      && CountOf(Count(PasswordText(password)), v.problem.cls) < v.problem.required
  {
    var s := PasswordText(password);
    if |s| < p.length then Rejected(TooShort(p.length))
    else if |s| > p.maxLength then Rejected(TooLong(p.maxLength))
    else if !PassesWhitelist(s) then Rejected(BadCharacters)
    else
      var t := Count(s);
      MeetsByField(t, p);
      if t.upper < p.upperCaseNum then Rejected(Shortfall(Upper, p.upperCaseNum))
      else if t.special < p.specialLetterNum then Rejected(Shortfall(Special, p.specialLetterNum))
      else if t.digit < p.digitNum then Rejected(Shortfall(Digit, p.digitNum))
      else if t.lower < p.lowerCaseNum then Rejected(Shortfall(Lower, p.lowerCaseNum))
      else Accepted
  }

  /** Bytes from the first zero byte on never change the verdict, and a
      password without a zero byte is judged whole. */
  lemma ValidateIgnoresTailAfterNul(text: seq<Byte>, tail: seq<Byte>, p: Policy)
    requires 0 !in text
    ensures Validate(text + [0] + tail, p) == Validate(text, p)
    ensures PasswordText(text) == text
  {
    PrefixBeforeNulCuts(text, tail);
  }

  /** An instance: "Ab1!", a zero byte and "zz" is accepted under
      thresholds of one per class and length 4..5, because only the four
      bytes before the zero byte are checked; the six bytes of the whole
      password would be too long. */
  lemma BytesAfterNulAreNotChecked()
    ensures Validate([0x41, 0x62, 0x31, 0x21] + [0] + [0x7A, 0x7A], Policy(1, 1, 1, 1, 4, 5)) == Accepted
  {
    var text: seq<Byte> := [0x41, 0x62, 0x31, 0x21];
    var p := Policy(1, 1, 1, 1, 4, 5);
    ValidateIgnoresTailAfterNul(text, [0x7A, 0x7A], p);
    assert PassesWhitelist(text);
    assert Count(text[..1]) == Tally(1, 0, 0, 0) by { assert text[..1][..0] == []; }
    assert Count(text[..2]) == Tally(1, 0, 0, 1) by { assert text[..2][..1] == text[..1]; }
    assert Count(text[..3]) == Tally(1, 0, 1, 1) by { assert text[..3][..2] == text[..2]; }
    assert Count(text) == Tally(1, 1, 1, 1) by { assert text[..3] == text[..|text| - 1]; }
    MeetsByField(Count(text), p);
  }

  /** Position of a class in the reporting order. */
  function Priority(c: CharClass): nat
  {
    match c
    case Upper => 0
    case Special => 1
    case Digit => 2
    case Lower => 3
  }

  /** A password is accepted exactly when it is within bounds, passes the
      whitelist and meets every threshold. */
  lemma AcceptedIffAllMet(password: seq<Byte>, p: Policy)
    ensures Validate(password, p) == Accepted <==>
      && p.length <= |PasswordText(password)| <= p.maxLength
      && PassesWhitelist(PasswordText(password))
      && Meets(Count(PasswordText(password)), p)
  {
    MeetsByField(Count(PasswordText(password)), p);
  }

  /** Within bounds and whitelist, the reported shortfall is the unmet class
      that comes first in the priority order, and no other. */
  lemma ShortfallIsFirstUnmet(password: seq<Byte>, p: Policy, c: CharClass)
    requires p.length <= |PasswordText(password)| <= p.maxLength
    requires PassesWhitelist(PasswordText(password))
    ensures Validate(password, p) == Rejected(Shortfall(c, Threshold(p, c))) <==>
      && CountOf(Count(PasswordText(password)), c) < Threshold(p, c)
      && forall d :: Priority(d) < Priority(c) ==> CountOf(Count(PasswordText(password)), d) >= Threshold(p, d)
  {
    var t := Count(PasswordText(password));
    var earlierMet := forall d :: Priority(d) < Priority(c) ==> CountOf(t, d) >= Threshold(p, d);
    if CountOf(t, c) < Threshold(p, c) && earlierMet {
      match c
      case Upper =>
      case Special => assert Priority(Upper) < Priority(c);
      case Digit => assert Priority(Upper) < Priority(c) && Priority(Special) < Priority(c);
      case Lower =>
        assert Priority(Upper) < Priority(c) && Priority(Special) < Priority(c);
        assert Priority(Digit) < Priority(c);
    }
  }

  /** A password whose text is too short or too long is reported as such
      whatever its characters: the bounds are checked before anything else,
      on the text before the first zero byte. */
  lemma BoundsCheckedFirst(password: seq<Byte>, p: Policy)
    ensures |PasswordText(password)| < p.length ==> Validate(password, p) == Rejected(TooShort(p.length))
    ensures p.length <= |PasswordText(password)| && |PasswordText(password)| > p.maxLength ==>
      Validate(password, p) == Rejected(TooLong(p.maxLength))
    ensures Validate(password, p) == Rejected(BadCharacters) <==>
      p.length <= |PasswordText(password)| <= p.maxLength && !PassesWhitelist(PasswordText(password))
  {
  }

  function Noun(c: CharClass): string
  {
    match c
    case Upper => "upper case letter"
    case Special => "special letter"
    case Digit => "digit"
    case Lower => "lower case letter"
  }

  /** The text isValidePassword puts in its error message. */
  function Message(problem: Problem): (m: string)
    ensures |m| >= 2 && m[|m| - 1] == '.'
    ensures problem.Shortfall? ==> (m[|m| - 2] == 's' <==> problem.required > 1)
  {
    match problem
    case TooShort(n) => "Password needs to be at least " + DecimalString(n) + " in length."
    case TooLong(n) => "Password can't be longer than " + DecimalString(n) + "."
    case BadCharacters => "Only A-Z, a-z, 0-9, ._%+-!@#$&* can be used in password."
    case Shortfall(c, n) =>
      "Password needs to contain at least " + DecimalString(n) + " " + Noun(c)
      + (if n > 1 then "s." else ".")
  }

  /** UserManager::isValidePassword, step by step: the text before the
      first zero byte, its bounds, the whitelist, then one counting scan
      that returns as soon as every threshold is met, and otherwise one
      message for the first unmet class. */
  method CheckPassword(password: seq<Byte>, p: Policy) returns (valid: bool, errorMessage: string)
    ensures valid <==> Validate(password, p) == Accepted
    ensures valid ==> errorMessage == ""
    ensures !valid ==> errorMessage == Message(Validate(password, p).problem)
  {
    errorMessage := "";
    var text := PasswordText(password);
    if |text| < p.length {
      errorMessage := Message(TooShort(p.length));
      return false, errorMessage;
    }
    if |text| > p.maxLength {
      errorMessage := Message(TooLong(p.maxLength));
      return false, errorMessage;
    }
    if !PassesWhitelist(text) {
      errorMessage := Message(BadCharacters);
      return false, errorMessage;
    }

    var upperCase, specialLetter, digit, lowerCase := 0, 0, 0, 0;
    var i := 0;
    while i < |text|
      invariant 0 <= i <= |text|
      invariant Tally(upperCase, specialLetter, digit, lowerCase) == Count(text[..i])
      invariant i > 0 ==> !Meets(Count(text[..i]), p)
    {
      var b := text[i];
      if IsDigitByte(b) {
        digit := digit + 1;
      } else if IsUpperByte(b) || IsLowerByte(b) {
        if IsUpperByte(b) {
          upperCase := upperCase + 1;
        } else if IsLowerByte(b) {
          lowerCase := lowerCase + 1;
        }
      } else {
        specialLetter := specialLetter + 1;
      }
      assert text[..i + 1][..i] == text[..i];
      MeetsByField(Count(text[..i + 1]), p);
      if upperCase >= p.upperCaseNum && specialLetter >= p.specialLetterNum
        && digit >= p.digitNum && lowerCase >= p.lowerCaseNum
      {
        MetPrefixMeetsAll(text, i + 1, p);
        AcceptedIffAllMet(password, p);
        return true, errorMessage;
      }
      i := i + 1;
    }
    assert text[..|text|] == text;
    AcceptedIffAllMet(password, p);

    if upperCase < p.upperCaseNum {
      errorMessage := Message(Shortfall(Upper, p.upperCaseNum));
    } else if specialLetter < p.specialLetterNum {
      errorMessage := Message(Shortfall(Special, p.specialLetterNum));
    } else if digit < p.digitNum {
      errorMessage := Message(Shortfall(Digit, p.digitNum));
    } else if lowerCase < p.lowerCaseNum {
      errorMessage := Message(Shortfall(Lower, p.lowerCaseNum));
    }
    return false, errorMessage;
  }
}
