/** Activation and password-reset codes: a 256-byte buffer that starts with
    up to 32 bytes of the email and is filled with random bytes, hashed with
    SHA3-256 and hex-encoded (UserManager::generateActivationCode and
    UserManager::generatePasswordResetCode). */
module Tokens {
  import opened Common

  const TokenBufferSize := 256
  const EmailPrefixLimit := 32
  const DigestSize := 32

  /** A SHA3-256 digest. */
  type Digest = d: seq<Byte> | |d| == DigestSize witness seq(DigestSize, _ => 0)

  /** The bytes the secure random source would hand out for one token; the
      buffer uses as many of them, from the start, as it has room for. */
  type RandomBlock = r: seq<Byte> | |r| == TokenBufferSize witness seq(TokenBufferSize, _ => 0)

  /** Where the random part of the buffer begins. */
  function RandomOffset(email: string): (offset: nat)
    ensures offset <= EmailPrefixLimit && offset <= |email|
    ensures offset == |email| || offset == EmailPrefixLimit
  {
    if |email| < EmailPrefixLimit then |email| else EmailPrefixLimit
  }

  /** QByteArray::resize: truncate, or grow with new bytes (left as zero
      here; the token buffer overwrites every one of them). */
  function Resize(b: seq<Byte>, n: nat): (r: seq<Byte>)
    ensures |r| == n
    ensures forall i :: 0 <= i < n && i < |b| ==> r[i] == b[i]
  {
    if |b| >= n then b[..n] else b + seq(n - |b|, _ => 0)
  }

  /** Writing `bytes` into `buffer` from position `offset` on. */
  function Overwrite(buffer: seq<Byte>, offset: nat, bytes: seq<Byte>): (r: seq<Byte>)
    requires offset + |bytes| <= |buffer|
    ensures |r| == |buffer|
    ensures r[..offset] == buffer[..offset]
    ensures r[offset..offset + |bytes|] == bytes
    ensures r[offset + |bytes|..] == buffer[offset + |bytes|..]
  {
    buffer[..offset] + bytes + buffer[offset + |bytes|..]
  }

  /** The buffer that is hashed: the email's Latin-1 bytes resized to 256,
      then overwritten with random bytes from min(|email|, 32) to the end. */
  function TokenBuffer(email: string, random: RandomBlock): (buffer: seq<Byte>)
    ensures |buffer| == TokenBufferSize
    ensures forall i :: 0 <= i < RandomOffset(email) ==> buffer[i] == Latin1Byte(email[i])
    ensures buffer[RandomOffset(email)..] == random[..TokenBufferSize - RandomOffset(email)]
  {
    var offset := RandomOffset(email);
    Overwrite(Resize(Latin1(email), TokenBufferSize), offset, random[..TokenBufferSize - offset])
  }

  /** For a short Latin-1 email the whole address can be read back from the
      head of the buffer; only the rest is secret. */
  lemma TokenBufferStartsWithEmail(email: string, random: RandomBlock)
    requires |email| <= EmailPrefixLimit
    requires IsLatin1Text(email)
    ensures FromLatin1(TokenBuffer(email, random)[..|email|]) == email
  {
    var buffer := TokenBuffer(email, random);
    assert buffer[..|email|] == Latin1(email);
    Latin1RoundTrip(email);
  }

  predicate IsLowerHexChar(c: char)
  {
    '0' <= c <= '9' || 'a' <= c <= 'f'
  }

  function HexDigit(n: nat): (c: char)
    requires n < 16
    ensures IsLowerHexChar(c)
  {
    "0123456789abcdef"[n]
  }

  function HexValue(c: char): (n: nat)
    requires IsLowerHexChar(c)
    ensures n < 16
  {
    if c <= '9' then c as int - '0' as int else c as int - 'a' as int + 10
  }

  /** QByteArray::toHex: two lower-case hex digits per byte, high nibble
      first. */
  function ToHex(b: seq<Byte>): (s: string)
    ensures |s| == 2 * |b|
    ensures forall i :: 0 <= i < |s| ==> IsLowerHexChar(s[i])
  {
    if |b| == 0 then []
    else [HexDigit(b[0] / 16), HexDigit(b[0] % 16)] + ToHex(b[1..])
  }

  /** Reading lower-case hex text back into bytes. */
  function FromHex(s: string): Option<seq<Byte>>
  {
    if |s| == 0 then Some([])
    else if |s| == 1 || !IsLowerHexChar(s[0]) || !IsLowerHexChar(s[1]) then None
    else match FromHex(s[2..])
      case None => None
      case Some(rest) => Some([HexValue(s[0]) * 16 + HexValue(s[1])] + rest)
  }

  /** Hex encoding loses nothing. */
  lemma {:induction false} HexRoundTrip(b: seq<Byte>)
    ensures FromHex(ToHex(b)) == Some(b)
  {
    if |b| > 0 {
      var s := ToHex(b);
      assert s[2..] == ToHex(b[1..]);
      HexRoundTrip(b[1..]);
      assert HexValue(HexDigit(b[0] / 16)) == b[0] / 16;
      assert HexValue(HexDigit(b[0] % 16)) == b[0] % 16;
      assert b == [b[0]] + b[1..];
    }
  }

  /** Distinct digests give distinct codes. */
  lemma HexInjective(a: seq<Byte>, b: seq<Byte>)
    requires ToHex(a) == ToHex(b)
    ensures a == b
  {
    HexRoundTrip(a);
    HexRoundTrip(b);
  }

  /** UserManager::generateActivationCode: 64 lower-case hex characters
      that decode to the SHA3-256 digest of the token buffer. */
  function ActivationCode(email: string, random: RandomBlock, sha3: seq<Byte> -> Digest): (code: string)
    ensures |code| == 2 * DigestSize
    ensures forall i :: 0 <= i < |code| ==> IsLowerHexChar(code[i])
    ensures FromHex(code) == Some(sha3(TokenBuffer(email, random)))
  {
    var digest := sha3(TokenBuffer(email, random));
    HexRoundTrip(digest);
    ToHex(digest)
  }

  /** UserManager::generatePasswordResetCode, written out separately as in
      the source. */
  function PasswordResetCode(email: string, random: RandomBlock, sha3: seq<Byte> -> Digest): (code: string)
    ensures |code| == 2 * DigestSize
    ensures forall i :: 0 <= i < |code| ==> IsLowerHexChar(code[i])
    ensures FromHex(code) == Some(sha3(TokenBuffer(email, random)))
  {
    var buffer := Overwrite(Resize(Latin1(email), TokenBufferSize), RandomOffset(email),
                            random[..TokenBufferSize - RandomOffset(email)]);
    var digest := sha3(buffer);
    HexRoundTrip(digest);
    ToHex(digest)
  }

  /** The two generators compute the same function. */
  lemma ResetCodeIsActivationCode(email: string, random: RandomBlock, sha3: seq<Byte> -> Digest)
    ensures PasswordResetCode(email, random, sha3) == ActivationCode(email, random, sha3)
  {
  }
}
