/**
 * The seed and TOTP codec of `cryptography_utils.py`: decrypting and
 * validating the seed, re-encoding it in Base32, and generating and verifying
 * 6-digit TOTP codes for a given Unix time.
 */
module CryptographyUtils {
  import opened Wrappers
  import opened Bits
  import opened Hex
  import Utf8
  import Base32
  import Otp

  /** `base64.b64decode` of the request text; None where it raises. */
  type Base64Decoder = string -> Option<seq<byte>>

  /**
   * An RSA private key, known only through OAEP decryption with it (SHA-256
   * for both the hash and MGF1, no label; section 7.1.2 of RFC 8017): the
   * plaintext, or None where the library raises.
   */
  datatype PrivateKey = PrivateKey(decryptOaep: seq<byte> -> Option<seq<byte>>)

  /** Why `decrypt_seed` raised. */
  datatype DecryptError =
    | InvalidBase64       // ValueError re-raised from binascii.Error
    | DecryptionFailed    // RuntimeError wrapping any OAEP failure
    | InvalidUtf8         // UnicodeDecodeError, a ValueError
    | InvalidSeedFormat   // ValueError from the 64-hex-digit check
  {
    predicate IsValueError() {
      !DecryptionFailed?
    }
  }

  /** A normalised seed: 64 lower-case hex digits. */
  predicate IsHexSeed(s: string) {
    |s| == 64 && IsLowerHexString(s)
  }

  /** A plaintext the seed check accepts: 64 bytes, each an ASCII hex digit of either case. */
  predicate IsHexSeedPlaintext(plaintext: seq<byte>) {
    |plaintext| == 64 && forall i :: 0 <= i < 64 ==> IsHexDigit(plaintext[i] as char)
  }

  /**
   * UTF-8 text of 64 hex digits comes from exactly the 64-byte ASCII hex
   * plaintexts: a multi-byte character is never a hex digit.
   */
  lemma DecodesToHexDigits(plaintext: seq<byte>)
    ensures (Utf8.Decode(plaintext).Some? && |Utf8.Decode(plaintext).value| == 64
             && IsHexString(Utf8.Decode(plaintext).value))
            <==> IsHexSeedPlaintext(plaintext)
    ensures IsHexSeedPlaintext(plaintext) ==> Utf8.Decode(plaintext) == Some(Utf8.AsciiText(plaintext))
  {
    if IsHexSeedPlaintext(plaintext) {
      Utf8.DecodeAscii(plaintext);
    }
    var text := Utf8.Decode(plaintext);
    if text.Some? && |text.value| == 64 && IsHexString(text.value) {
      Utf8.DecodedAsciiIsBytes(plaintext);
      assert forall i :: 0 <= i < 64 ==> plaintext[i] as char == text.value[i];
    }
  }

  /**
   * Steps 3 to 5 of `decrypt_seed`: decode as UTF-8, require exactly 64 hex
   * digits, return them in lower case.
   */
  function CheckPlaintext(plaintext: seq<byte>): (r: Result<string, DecryptError>)
    ensures r.Success? <==> IsHexSeedPlaintext(plaintext)
    ensures r.Success? ==> IsHexSeed(r.value) && r.value == Lower(Utf8.AsciiText(plaintext))
    ensures r.Failure? ==> r.error.IsValueError() && !r.error.InvalidBase64?
  {
    DecodesToHexDigits(plaintext);
    match Utf8.Decode(plaintext)
    case None => Failure(InvalidUtf8)
    case Some(text) =>
      if |text| != 64 || !IsHexString(text) then Failure(InvalidSeedFormat)
      else Success(Lower(text))
  }

  /**
   * `decrypt_seed`: Base64-decode, RSA-OAEP-decrypt, then check the
   * plaintext. A seed comes back exactly when both decodings succeed and the
   * plaintext is 64 ASCII hex digits, and it is that plaintext in lower case.
   */
  function DecryptSeed(encryptedSeedB64: string, privateKey: PrivateKey, b64decode: Base64Decoder): (r: Result<string, DecryptError>)
    ensures b64decode(encryptedSeedB64).None? ==> r == Failure(InvalidBase64)
    ensures b64decode(encryptedSeedB64).Some? && privateKey.decryptOaep(b64decode(encryptedSeedB64).value).None?
            ==> r == Failure(DecryptionFailed)
    ensures r.Success? <==>
            b64decode(encryptedSeedB64).Some?
            && privateKey.decryptOaep(b64decode(encryptedSeedB64).value).Some?
            && IsHexSeedPlaintext(privateKey.decryptOaep(b64decode(encryptedSeedB64).value).value)
    ensures r.Success? ==>
              (IsHexSeed(r.value)
               && r.value == Lower(Utf8.AsciiText(privateKey.decryptOaep(b64decode(encryptedSeedB64).value).value)))
  {
    match b64decode(encryptedSeedB64)
    case None => Failure(InvalidBase64)
    case Some(ciphertext) =>
      match privateKey.decryptOaep(ciphertext)
      case None => Failure(DecryptionFailed)
      case Some(plaintext) => CheckPlaintext(plaintext)
  }

  /** The `ValueError`s behind a failed TOTP operation, by message. */
  datatype TotpError = InvalidHexSeed | OtpFailure(cause: Otp.OtpError)
  {
    function Message(): string {
      match this
      case InvalidHexSeed => "Invalid hexadecimal seed string."
      case OtpFailure(cause) => cause.Message()
    }
  }

  /**
   * `hex_to_base32`: hex-decode, Base32-encode, strip the '=' padding. The
   * result is the unpadded RFC 4648 encoding of the seed's bytes, which the
   * TOTP object decodes back to exactly those bytes.
   */
  function HexToBase32(hexSeed: string): (r: Result<string, TotpError>)
    ensures r.Failure? <==> FromHex(hexSeed).None?
    ensures r.Failure? ==> r.error == InvalidHexSeed
    ensures r.Success? ==> r.value == Base32.EncodeUnpadded(FromHex(hexSeed).value)
    ensures r.Success? ==> Otp.ByteSecret(r.value) == Success(FromHex(hexSeed).value)
  {
    match FromHex(hexSeed)
    case None => Failure(InvalidHexSeed)
    case Some(seedBytes) =>
      Base32.TrimEncode(seedBytes);
      Otp.ByteSecretOfEncoding(seedBytes);
      Success(Base32.TrimRight(Base32.Encode(seedBytes), '='))
  }

  /**
   * The shape of `hex_to_base32`'s output: only 'A'-'Z' and '2'-'7' (so no
   * '='), ceil(8n/5) symbols for n bytes, 52 for a 64-digit seed; and
   * re-padding it with '=' to a multiple of 8 and Base32-decoding it gives
   * back the hex-decoded bytes.
   */
  lemma HexToBase32Shape(hexSeed: string)
    requires HexToBase32(hexSeed).Success?
    ensures Base32.AllSymbols(HexToBase32(hexSeed).value)
    ensures forall i :: 0 <= i < |HexToBase32(hexSeed).value| ==> HexToBase32(hexSeed).value[i] != '='
    ensures |HexToBase32(hexSeed).value| == (8 * |FromHex(hexSeed).value| + 4) / 5
    ensures var b32 := HexToBase32(hexSeed).value;
            Base32.Decode(b32 + Base32.Padding(Base32.PadCount(|b32|)), false) == Success(FromHex(hexSeed).value)
  {
    Base32.DecodeEncode(FromHex(hexSeed).value, false);
  }

  /** A normalised seed always converts, to 52 Base32 symbols. */
  lemma HexToBase32OfSeed(hexSeed: string)
    requires IsHexSeed(hexSeed)
    ensures HexToBase32(hexSeed).Success? && |HexToBase32(hexSeed).value| == 52
  {
    FromHexWithoutSpaces(hexSeed);
    FromHexAccepted(hexSeed);
    assert NonSpaceCount(hexSeed) == 64 by {
      NonSpaceCountAll(hexSeed);
    }
  }

  lemma {:induction false} NonSpaceCountAll(s: string)
    requires forall i :: 0 <= i < |s| ==> !IsAsciiSpace(s[i])
    ensures NonSpaceCount(s) == |s|
  {
    if s != [] {
      NonSpaceCountAll(s[1..]);
    }
  }

  /** The conversion does not depend on the letter case of the hex input. */
  lemma HexToBase32IgnoresCase(hexSeed: string)
    ensures HexToBase32(Lower(hexSeed)) == HexToBase32(hexSeed)
  {
    FromHexIgnoresCase(hexSeed);
  }

  /** A code together with the seconds it stays current. */
  datatype CodeAndTime = CodeAndTime(code: string, validFor: nat)

  /** `30 - int(now) % 30`: the seconds left in the current 30-second period. */
  function ValidFor(now: nat): (r: nat)
    ensures 1 <= r <= Otp.Interval
  {
    Otp.Interval - now % Otp.Interval
  }

  /**
   * `generate_totp_code_and_time`: the RFC 6238 code of the seed's bytes for
   * the time step containing `now`, and the seconds left in that step.
   */
  function GenerateTotpCodeAndTime(hexSeed: string, hmac: Otp.HmacSha1, now: nat): (r: Result<CodeAndTime, TotpError>)
    ensures r.Failure? <==> FromHex(hexSeed).None?
    ensures r.Failure? ==> r.error == InvalidHexSeed
    ensures r.Success? ==> r.value.code == Otp.Hotp(FromHex(hexSeed).value, now / Otp.Interval, hmac)
    ensures r.Success? ==> |r.value.code| == 6 && Otp.IsDigitString(r.value.code)
    ensures r.Success? ==> r.value.validFor == Otp.Interval - now % Otp.Interval && 1 <= r.value.validFor <= Otp.Interval
  {
    match HexToBase32(hexSeed)
    case Failure(e) => Failure(e)
    case Success(secret) =>
      match Otp.Now(secret, hmac, now)
      case Failure(e) => Failure(OtpFailure(e))
      case Success(code) => Success(CodeAndTime(code, ValidFor(now)))
  }

  /**
   * Second by second, the remaining validity counts down by one inside a
   * period and wraps from 1 back to 30 at a period boundary.
   */
  lemma ValidForCountsDown(now: nat)
    ensures ValidFor(now + 1) == if ValidFor(now) == 1 then Otp.Interval else ValidFor(now) - 1
    ensures ValidFor(now) == 1 <==> (now + 1) / Otp.Interval == now / Otp.Interval + 1
  {
  }

  /** Every instant of one time step yields the same code. */
  lemma SameStepSameCode(hexSeed: string, hmac: Otp.HmacSha1, t1: nat, t2: nat)
    requires t1 / Otp.Interval == t2 / Otp.Interval
    ensures GenerateTotpCodeAndTime(hexSeed, hmac, t1).Success? ==>
            GenerateTotpCodeAndTime(hexSeed, hmac, t2).Success?
            && GenerateTotpCodeAndTime(hexSeed, hmac, t2).value.code == GenerateTotpCodeAndTime(hexSeed, hmac, t1).value.code
  {
  }

  /**
   * `verify_totp_code`: true exactly when the candidate is the code of some
   * counter within `validWindow` steps of the current one. A window reaching
   * below counter 0 raises `ValueError` in the TOTP library.
   */
  function VerifyTotpCode(hexSeed: string, code: string, validWindow: int, hmac: Otp.HmacSha1, now: nat): (r: Result<bool, TotpError>)
    ensures FromHex(hexSeed).None? ==> r == Failure(InvalidHexSeed)
    ensures FromHex(hexSeed).Some? ==>
            r == if validWindow > 0 && now / Otp.Interval < validWindow then Failure(OtpFailure(Otp.NegativeCounter))
                 else Success(Otp.InWindow(FromHex(hexSeed).value, code, now / Otp.Interval, validWindow, hmac))
  {
    match HexToBase32(hexSeed)
    case Failure(e) => Failure(e)
    case Success(secret) =>
      Otp.VerifyIsWindowSearch(secret, FromHex(hexSeed).value, code, validWindow, hmac, now);
      match Otp.Verify(secret, code, validWindow, hmac, now)
      case Failure(e) => Failure(OtpFailure(e))
      case Success(valid) => Success(valid)
  }

  /**
   * A code generated at `t` is accepted at any `t'` whose time step is within
   * the window of `t`'s, as long as the window does not reach below step 0.
   */
  lemma GeneratedCodeVerifies(hexSeed: string, hmac: Otp.HmacSha1, t: nat, t': nat, validWindow: nat)
    requires GenerateTotpCodeAndTime(hexSeed, hmac, t).Success?
    requires t / Otp.Interval <= t' / Otp.Interval + validWindow && t' / Otp.Interval <= t / Otp.Interval + validWindow
    requires t' / Otp.Interval >= validWindow
    ensures VerifyTotpCode(hexSeed, GenerateTotpCodeAndTime(hexSeed, hmac, t).value.code, validWindow, hmac, t') == Success(true)
  {
    Otp.OwnCodeInWindow(FromHex(hexSeed).value, t / Otp.Interval, t' / Otp.Interval, validWindow, hmac);
  }

  /** Widening the window never turns an accepted code into a rejected one. */
  lemma AcceptanceMonotoneInWindow(hexSeed: string, code: string, hmac: Otp.HmacSha1, now: nat, w1: nat, w2: nat)
    requires w1 <= w2 <= now / Otp.Interval
    requires VerifyTotpCode(hexSeed, code, w1, hmac, now) == Success(true)
    ensures VerifyTotpCode(hexSeed, code, w2, hmac, now) == Success(true)
  {
    Otp.WiderWindow(FromHex(hexSeed).value, code, now / Otp.Interval, w1, w2, hmac);
  }
}
