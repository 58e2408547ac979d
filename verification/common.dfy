/** Shared vocabulary of the model: optional values, bytes, Latin-1 text,
    C-string truncation, first-match search and decimal rendering. */
module Common {

  datatype Option<+T> = None | Some(value: T)

  /** One element of a QByteArray. */
  type Byte = b: int | 0 <= b < 0x100

  /** True iff every element of `s` satisfies `p`. */
  predicate All<T>(s: seq<T>, p: T -> bool)
  {
    forall i :: 0 <= i < |s| ==> p(s[i])
  }

  /** Index of the first element of `s` satisfying `matches`, as a
      document store's find_one returns the first matching document. */
  function FirstIndex<T>(s: seq<T>, matches: T -> bool): (r: Option<nat>)
    ensures r.Some? ==> r.value < |s| && matches(s[r.value])
    ensures r.Some? ==> forall j :: 0 <= j < r.value ==> !matches(s[j])
    ensures r.None? <==> forall j :: 0 <= j < |s| ==> !matches(s[j])
  {
    if |s| == 0 then None
    else if matches(s[0]) then Some(0)
    else match FirstIndex(s[1..], matches)
      case None => None
      case Some(i) => Some(i + 1)
  }

  /** QString::toLatin1: a character below U+0100 becomes that byte, any
      other character becomes '?'. */
  function Latin1(s: string): (r: seq<Byte>)
    ensures |r| == |s|
    ensures forall i :: 0 <= i < |s| ==> r[i] == Latin1Byte(s[i])
  {
    if |s| == 0 then []
    else Latin1(s[..|s| - 1]) + [Latin1Byte(s[|s| - 1])]
  }

  function Latin1Byte(c: char): Byte
  {
    if c as int < 0x100 then c as int else '?' as int
  }

  /** QString::fromLatin1: every byte becomes the character with that code. */
  function FromLatin1(b: seq<Byte>): (r: string)
    ensures |r| == |b|
    ensures forall i :: 0 <= i < |b| ==> r[i] as int == b[i]
  {
    if |b| == 0 then []
    else FromLatin1(b[..|b| - 1]) + [b[|b| - 1] as char]
  }

  predicate IsLatin1Text(s: string)
  {
    forall i :: 0 <= i < |s| ==> s[i] as int < 0x100
  }

  /** Latin-1 text survives the trip to bytes and back unchanged. */
  lemma {:induction false} Latin1RoundTrip(s: string)
    requires IsLatin1Text(s)
    ensures FromLatin1(Latin1(s)) == s
  {
    if |s| > 0 {
      var init := s[..|s| - 1];
      assert IsLatin1Text(init) by {
        forall i | 0 <= i < |init| ensures init[i] as int < 0x100 {
          assert init[i] == s[i];
        }
      }
      Latin1RoundTrip(init);
      assert Latin1(s)[..|s| - 1] == Latin1(init);
      assert s == init + [s[|s| - 1]];
    }
  }

  /** What a C string built with `.c_str()` keeps of `s`: everything before
      the first NUL character. */
  function TextBeforeNul(s: string): (r: string)
    ensures |r| <= |s| && r == s[..|r|]
    ensures '\0' !in r
    ensures |r| < |s| ==> s[|r|] == '\0'
  {
    match FirstIndex(s, (c: char) => c == '\0')
    case None => s
    case Some(i) => s[..i]
  }

  /** What QString::fromLatin1 (Qt 5) and `.c_str()` keep of a byte
      string: the bytes before the first zero byte. */
  function PrefixBeforeNul(b: seq<Byte>): (r: seq<Byte>)
    ensures |r| <= |b| && r == b[..|r|]
    ensures 0 !in r
    ensures |r| < |b| ==> b[|r|] == 0
  {
    match FirstIndex(b, (x: Byte) => x == 0)
    case None => b
    case Some(i) => b[..i]
  }

  /** A byte string without a zero byte is kept whole, and whatever follows
      the first zero byte is never looked at. */
  lemma PrefixBeforeNulCuts(a: seq<Byte>, tail: seq<Byte>)
    requires 0 !in a
    ensures PrefixBeforeNul(a) == a
    ensures PrefixBeforeNul(a + [0] + tail) == a
  {
    var b := a + [0] + tail;
    assert b[|a|] == 0;
    assert b[..|a|] == a;
  }

  /** A byte string read as text through `.c_str()`: the bytes before the
      first zero byte, each taken as the character with that code. */
  function BytesBeforeNul(b: seq<Byte>): (r: string)
    ensures |r| <= |b|
    ensures '\0' !in r
    ensures forall i :: 0 <= i < |r| ==> r[i] as int == b[i]
    ensures |r| < |b| ==> b[|r|] == 0
  {
    var kept := PrefixBeforeNul(b);
    var r := FromLatin1(kept);
    assert forall i :: 0 <= i < |r| ==> r[i] != '\0' by {
      forall i | 0 <= i < |r| ensures r[i] != '\0' {
        assert r[i] as int == kept[i] && kept[i] in kept;
      }
    }
    r
  }

  /** Text with no NUL and nothing outside Latin-1 reads back unchanged
      after a trip through QByteArray and `.c_str()`. */
  lemma BytesBeforeNulOfLatin1(s: string)
    requires IsLatin1Text(s)
    requires '\0' !in s
    ensures BytesBeforeNul(Latin1(s)) == s
  {
    var b := Latin1(s);
    forall i | 0 <= i < |b| ensures b[i] != 0 {
      assert s[i] != '\0';
    }
    assert FirstIndex(b, (x: Byte) => x == 0).None?;
    var r := BytesBeforeNul(b);
    forall i | 0 <= i < |s| ensures r[i] == s[i] {
      assert r[i] as int == s[i] as int;
    }
  }

  function DigitChar(d: nat): char
    requires d < 10
  {
    (d + '0' as int) as char
  }

  /** QString::number on an unsigned value: its shortest decimal spelling. */
  function DecimalString(n: nat): (s: string)
    ensures |s| >= 1
    ensures forall i :: 0 <= i < |s| ==> '0' <= s[i] <= '9'
    ensures |s| > 1 ==> s[0] != '0'
  {
    if n < 10 then [DigitChar(n)]
    else DecimalString(n / 10) + [DigitChar(n % 10)]
  }

  /** The value a string of decimal digits denotes. */
  function DecimalValue(s: string): nat
    requires forall i :: 0 <= i < |s| ==> '0' <= s[i] <= '9'
  {
    if |s| == 0 then 0
    else DecimalValue(s[..|s| - 1]) * 10 + (s[|s| - 1] as int - '0' as int)
  }

  /** The decimal rendering denotes the number it was made from, so
      distinct thresholds produce distinct messages. */
  lemma {:induction false} DecimalRoundTrip(n: nat)
    ensures DecimalValue(DecimalString(n)) == n
  {
    if n >= 10 {
      var s := DecimalString(n);
      assert s[..|s| - 1] == DecimalString(n / 10);
      DecimalRoundTrip(n / 10);
    }
  }
}
