/**
 * HOTP and TOTP as RFC 4226 (sections 5.2-5.4) and RFC 6238 (section 4)
 * define them, in the form the `pyotp` TOTP object the service builds applies
 * them: 6 digits, a 30-second step from Unix time 0, HMAC-SHA1. HMAC-SHA1
 * itself is left abstract: any function from key and message to a 20-byte tag.
 */
module Otp {
  import opened Wrappers
  import opened Bits
  import Base32

  const Digits: nat := 6
  const Interval: nat := 30

  /** An HMAC-SHA1 tag: 20 bytes. */
  type Digest = d: seq<byte> | |d| == 20 witness seq(20, _ => 0)

  /** HMAC-SHA1 (RFC 2104 over SHA-1), keyed by the first argument. */
  type HmacSha1 = (seq<byte>, seq<byte>) -> Digest

  predicate IsAsciiDigit(c: char) {
    '0' <= c <= '9'
  }

  predicate IsDigitString(s: string) {
    forall i :: 0 <= i < |s| ==> IsAsciiDigit(s[i])
  }

  /** What a string of decimal digits denotes. */
  function DecimalValue(s: string): nat
    requires IsDigitString(s)
  {
    if s == [] then 0 else 10 * DecimalValue(s[..|s| - 1]) + (s[|s| - 1] as int - '0' as int)
  }

  /** The last decimal digit splits off a remainder by a power of ten. */
  lemma ModPowerOfTenStep(n: nat, width: nat)
    requires width > 0
    ensures n % Pow(10, width) == 10 * ((n / 10) % Pow(10, width - 1)) + n % 10
  {
    var p := Pow(10, width - 1);
    var a := n / 10;
    assert n == 10 * a + n % 10;
    assert a == p * (a / p) + a % p;
    assert n == (10 * p) * (a / p) + (10 * (a % p) + n % 10);
    ModUnique(n, 10 * p, a / p, 10 * (a % p) + n % 10);
  }

  /** `n` written in `width` decimal digits, with leading zeros, keeping the low-order digits. */
  function ZeroPadded(n: nat, width: nat): (s: string)
    ensures |s| == width && IsDigitString(s)
    ensures DecimalValue(s) == n % Pow(10, width)
  {
    if width == 0 then ""
    else
      var s := ZeroPadded(n / 10, width - 1) + [('0' as int + n % 10) as char];
      assert s[..width - 1] == ZeroPadded(n / 10, width - 1);
      ModPowerOfTenStep(n, width);
      s
  }

  /** pyotp's `int_to_bytestring`: the counter's big-endian bytes without leading zeros. */
  function MinimalBigEndian(c: nat): seq<byte>
  {
    if c == 0 then [] else MinimalBigEndian(c / 256) + [c % 256]
  }

  /** The number a big-endian byte string denotes. */
  function BigEndianValue(bs: seq<byte>): nat
  {
    if bs == [] then 0 else 256 * BigEndianValue(bs[..|bs| - 1]) + bs[|bs| - 1]
  }

  /** The HOTP moving factor: the counter in big-endian, left-padded with zero bytes to 8. */
  function CounterBytes(c: nat): seq<byte>
  {
    var m := MinimalBigEndian(c);
    if |m| < 8 then seq(8 - |m|, _ => 0) + m else m
  }

  lemma {:induction false} MinimalBigEndianValue(c: nat)
    ensures BigEndianValue(MinimalBigEndian(c)) == c
    ensures c < 0x1_0000_0000_0000_0000 ==> |MinimalBigEndian(c)| <= 8
  {
    if c > 0 {
      var m := MinimalBigEndian(c);
      assert m[..|m| - 1] == MinimalBigEndian(c / 256);
      MinimalBigEndianValue(c / 256);
    }
    if c < 0x1_0000_0000_0000_0000 {
      assert Pow(256, 8) == 0x1_0000_0000_0000_0000;
      ShortByBound(c, 8);
    }
  }

  lemma {:induction false} ShortByBound(c: nat, k: nat)
    requires c < Pow(256, k)
    ensures |MinimalBigEndian(c)| <= k
  {
    if c > 0 {
      assert k > 0;
      ShortByBound(c / 256, k - 1);
    }
  }

  lemma {:induction false} LeadingZeros(k: nat, bs: seq<byte>)
    ensures BigEndianValue(seq(k, _ => 0) + bs) == BigEndianValue(bs)
    decreases |bs|, k
  {
    var zs: seq<byte> := seq(k, _ => 0);
    if bs == [] {
      if k > 0 {
        assert (zs + bs)[..k - 1] == seq(k - 1, _ => 0) + [];
        LeadingZeros(k - 1, []);
      }
    } else {
      assert (zs + bs)[..|zs + bs| - 1] == zs + bs[..|bs| - 1];
      LeadingZeros(k, bs[..|bs| - 1]);
    }
  }

  /** Below 2^64 the counter is encoded as exactly 8 big-endian bytes (RFC 4226 section 5.2). */
  lemma CounterBytesBelow64Bits(c: nat)
    requires c < 0x1_0000_0000_0000_0000
    ensures |CounterBytes(c)| == 8 && BigEndianValue(CounterBytes(c)) == c
  {
    MinimalBigEndianValue(c);
    LeadingZeros(8 - |MinimalBigEndian(c)|, MinimalBigEndian(c));
  }

  /**
   * Dynamic truncation (RFC 4226 section 5.3): the low nibble of the last byte
   * picks an offset, and the four bytes there, top bit cleared, form the value.
   */
  function DynamicTruncation(d: Digest): (p: nat)
    ensures p < 0x8000_0000
  {
    var offset := d[19] % 16;
    var b0, b1, b2, b3 := d[offset] as int, d[offset + 1] as int, d[offset + 2] as int, d[offset + 3] as int;
    (b0 % 128) * 0x100_0000 + b1 * 0x1_0000 + b2 * 0x100 + b3
  }

  /**
   * The HOTP value for `counter` (RFC 4226 section 5.3): the truncated
   * HMAC-SHA1 of the counter bytes modulo 10^6, as 6 digits with leading zeros.
   */
  function Hotp(key: seq<byte>, counter: nat, hmac: HmacSha1): (code: string)
    ensures |code| == Digits && IsDigitString(code)
    ensures DecimalValue(code) == DynamicTruncation(hmac(key, CounterBytes(counter))) % 1_000_000
  {
    var truncated := DynamicTruncation(hmac(key, CounterBytes(counter)));
    assert Pow(10, Digits) == 1_000_000;
    ModUnique(truncated % 1_000_000, 1_000_000, 0, truncated % 1_000_000);
    ZeroPadded(truncated % Pow(10, Digits), Digits)
  }

  /** The `ValueError`s the TOTP object raises, by message. */
  datatype OtpError = NegativeCounter | SecretNotBase32(cause: Base32.DecodeError)
  {
    function Message(): string {
      match this
      case NegativeCounter => "input must be positive integer"
      case SecretNotBase32(cause) => cause.Message()
    }
  }

  /** `OTP.byte_secret`: the secret, re-padded with '=' to a multiple of 8, Base32-decoded case-insensitively. */
  function ByteSecret(secret: string): Result<seq<byte>, Base32.DecodeError>
  {
    var missing := |secret| % 8;
    Base32.Decode(secret + (if missing != 0 then Base32.Padding(8 - missing) else ""), true)
  }

  /** The '=' `byte_secret` appends are exactly those b32encode would have added. */
  lemma RepadIsPadding(n: nat)
    ensures (if n % 8 != 0 then Base32.Padding(8 - n % 8) else "") == Base32.Padding(Base32.PadCount(n))
  {
  }

  /** `byte_secret` restores the padding b32encode added. */
  lemma ByteSecretOfPadded(body: string, bs: seq<byte>)
    requires Base32.Decode(body + Base32.Padding(Base32.PadCount(|body|)), true) == Success(bs)
    ensures ByteSecret(body) == Success(bs)
  {
    RepadIsPadding(|body|);
  }

  /** The secret `hex_to_base32` produces decodes back to the seed bytes. */
  lemma ByteSecretOfEncoding(bs: seq<byte>)
    ensures ByteSecret(Base32.EncodeUnpadded(bs)) == Success(bs)
  {
    Base32.DecodeEncode(bs, true);
    ByteSecretOfPadded(Base32.EncodeUnpadded(bs), bs);
  }

  /** `OTP.generate_otp`: a negative counter is refused before the secret is decoded. */
  function GenerateOtp(secret: string, counter: int, hmac: HmacSha1): (r: Result<string, OtpError>)
    ensures counter < 0 ==> r == Failure(NegativeCounter)
    ensures counter >= 0 && ByteSecret(secret).Success? ==> r == Success(Hotp(ByteSecret(secret).value, counter, hmac))
  {
    if counter < 0 then Failure(NegativeCounter)
    else
      match ByteSecret(secret)
      case Failure(e) => Failure(SecretNotBase32(e))
      case Success(key) => Success(Hotp(key, counter, hmac))
  }

  /** `TOTP.timecode`: the number of whole 30-second steps since Unix time 0. */
  function TimeCode(now: nat): nat
  {
    now / Interval
  }

  /** `TOTP.now()`: the code of the current time step. */
  function Now(secret: string, hmac: HmacSha1, now: nat): Result<string, OtpError>
  {
    GenerateOtp(secret, TimeCode(now), hmac)
  }

  /** `TOTP.at` for a counter: the code generator the verification loop calls. */
  function At(secret: string, hmac: HmacSha1): int -> Result<string, OtpError>
  {
    counter => GenerateOtp(secret, counter, hmac)
  }

  /** The loop of `TOTP.verify`: counters `lo`..`hi` in increasing order, stopping at the first match. */
  function VerifyRange(at: int -> Result<string, OtpError>, otp: string, lo: int, hi: int): Result<bool, OtpError>
    decreases hi - lo
  {
    if lo > hi then Success(false)
    else
      match at(lo)
      case Failure(e) => Failure(e)
      case Success(code) => if code == otp then Success(true) else VerifyRange(at, otp, lo + 1, hi)
  }

  /**
   * `TOTP.verify(otp, valid_window)` for the generator `at` of a secret:
   * with a non-zero window the counters c - w .. c + w are tried in order
   * (none when w is negative); with window 0 only the current counter c.
   */
  function VerifyWith(at: int -> Result<string, OtpError>, otp: string, validWindow: int, now: nat): Result<bool, OtpError>
  {
    var c := TimeCode(now);
    if validWindow != 0 then VerifyRange(at, otp, c - validWindow, c + validWindow)
    else
      match at(c)
      case Failure(e) => Failure(e)
      case Success(code) => Success(code == otp)
  }

  /** `TOTP.verify` on a TOTP object built from `secret`. */
  function Verify(secret: string, otp: string, validWindow: int, hmac: HmacSha1, now: nat): Result<bool, OtpError>
  {
    VerifyWith(At(secret, hmac), otp, validWindow, now)
  }

  /** Some counter in `lo..hi` yields `otp` under the generator `at`. */
  ghost predicate Hits(at: int -> Result<string, OtpError>, otp: string, lo: int, hi: int) {
    exists k: nat :: lo <= k <= hi && at(k) == Success(otp)
  }

  /** The reference meaning of acceptance: some counter within `window` steps of `c` yields `otp`. */
  ghost predicate InWindow(key: seq<byte>, otp: string, c: nat, window: int, hmac: HmacSha1) {
    exists k: nat :: c - window <= k <= c + window && Hotp(key, k, hmac) == otp
  }

  /** The code of counter `k` is in every window around `c` that reaches `k`. */
  lemma OwnCodeInWindow(key: seq<byte>, k: nat, c: nat, window: int, hmac: HmacSha1)
    requires c - window <= k <= c + window
    ensures InWindow(key, Hotp(key, k, hmac), c, window, hmac)
  {
  }

  /** A match within a window is also a match within any wider window. */
  lemma WiderWindow(key: seq<byte>, otp: string, c: nat, w1: nat, w2: nat, hmac: HmacSha1)
    requires w1 <= w2 && InWindow(key, otp, c, w1, hmac)
    ensures InWindow(key, otp, c, w2, hmac)
  {
    var k: nat :| c - w1 <= k <= c + w1 && Hotp(key, k, hmac) == otp;
    assert c - w2 <= k <= c + w2;
  }

  lemma HitsStep(at: int -> Result<string, OtpError>, otp: string, lo: nat, hi: int)
    requires lo <= hi
    ensures Hits(at, otp, lo, hi) == (at(lo) == Success(otp) || Hits(at, otp, lo + 1, hi))
  {
    if Hits(at, otp, lo, hi) {
      var k: nat :| lo <= k <= hi && at(k) == Success(otp);
      if k > lo {
        assert lo + 1 <= k <= hi;
      }
    }
    if at(lo) == Success(otp) {
      assert lo <= lo <= hi;
    }
  }

  /**
   * For a generator that refuses exactly the negative counters, the
   * verification loop over `lo..hi` is a plain OR over those counters,
   * unless the range starts below zero, which raises before any comparison.
   */
  lemma {:induction false} VerifyRangeIsOr(at: int -> Result<string, OtpError>, otp: string, lo: int, hi: int)
    requires forall k :: k < 0 ==> at(k) == Failure(NegativeCounter)
    requires forall k :: k >= 0 ==> at(k).Success?
    ensures VerifyRange(at, otp, lo, hi)
         == if lo <= hi && lo < 0 then Failure(NegativeCounter) else Success(Hits(at, otp, lo, hi))
    decreases hi - lo
  {
    if lo <= hi && lo >= 0 {
      VerifyRangeIsOr(at, otp, lo + 1, hi);
      HitsStep(at, otp, lo, hi);
    }
  }

  /**
   * For any generator that refuses exactly the negative counters, verifying
   * is a window search, unless the window reaches below counter 0.
   */
  lemma VerifyWithIsSearch(at: int -> Result<string, OtpError>, otp: string, validWindow: int, now: nat)
    requires forall k :: k < 0 ==> at(k) == Failure(NegativeCounter)
    requires forall k :: k >= 0 ==> at(k).Success?
    ensures VerifyWith(at, otp, validWindow, now)
         == if validWindow > 0 && TimeCode(now) < validWindow then Failure(NegativeCounter)
            else Success(Hits(at, otp, TimeCode(now) - validWindow, TimeCode(now) + validWindow))
  {
    var c := TimeCode(now);
    if validWindow != 0 {
      VerifyRangeIsOr(at, otp, c - validWindow, c + validWindow);
    } else {
      HitsStep(at, otp, c, c);
      assert !Hits(at, otp, c + 1, c);
    }
  }

  /** With a decodable secret, `TOTP.at` refuses the negative counters and gives the HOTP code of the others. */
  lemma AtIsHotp(secret: string, key: seq<byte>, hmac: HmacSha1)
    requires ByteSecret(secret) == Success(key)
    ensures forall k :: k < 0 ==> At(secret, hmac)(k) == Failure(NegativeCounter)
    ensures forall k :: k >= 0 ==> At(secret, hmac)(k) == Success(Hotp(key, k, hmac))
  {
  }

  /** Hitting a window under `TOTP.at` is the reference window search. */
  lemma HitsIsInWindow(secret: string, key: seq<byte>, otp: string, c: nat, w: int, hmac: HmacSha1)
    requires ByteSecret(secret) == Success(key)
    ensures Hits(At(secret, hmac), otp, c - w, c + w) == InWindow(key, otp, c, w, hmac)
  {
    AtIsHotp(secret, key, hmac);
    var at := At(secret, hmac);
    if Hits(at, otp, c - w, c + w) {
      var k: nat :| c - w <= k <= c + w && at(k) == Success(otp);
      assert Hotp(key, k, hmac) == otp;
    }
    if InWindow(key, otp, c, w, hmac) {
      var k: nat :| c - w <= k <= c + w && Hotp(key, k, hmac) == otp;
      assert at(k) == Success(otp);
    }
  }

  /**
   * `TOTP.verify` accepts exactly the codes of counters within the window of
   * the current one; a window reaching below counter 0 raises instead.
   */
  lemma VerifyIsWindowSearch(secret: string, key: seq<byte>, otp: string, validWindow: int, hmac: HmacSha1, now: nat)
    requires ByteSecret(secret) == Success(key)
    ensures Verify(secret, otp, validWindow, hmac, now)
         == if validWindow > 0 && TimeCode(now) < validWindow then Failure(NegativeCounter)
            else Success(InWindow(key, otp, TimeCode(now), validWindow, hmac))
  {
    AtIsHotp(secret, key, hmac);
    VerifyWithIsSearch(At(secret, hmac), otp, validWindow, now);
    HitsIsInWindow(secret, key, otp, TimeCode(now), validWindow, hmac);
  }
}
