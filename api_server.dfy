/**
 * The 2FA microservice of `api_server.py`: a private key loaded once at
 * startup, one persisted seed, and three endpoints that decrypt and store the
 * seed, generate the current code, and verify a submitted code. File storage
 * (`storage_utils.py`) is the `seedFile` field; the wall clock is a parameter.
 */
module ApiServer {
  import opened Wrappers
  import opened Hex
  import Otp
  import opened CryptographyUtils

  /** The endpoints' HTTP outcomes: 200 with a body, or an error with its detail message. */
  datatype Response<T> = Ok(body: T) | BadRequest(detail: string) | InternalServerError(detail: string)
  {
    function StatusCode(): nat {
      match this
      case Ok(_) => 200
      case BadRequest(_) => 400
      case InternalServerError(_) => 500
    }
  }

  datatype StatusBody = StatusBody(status: string)
  datatype CodeBody = CodeBody(code: string, validFor: nat)
  datatype ValidBody = ValidBody(valid: bool)

  const KeyNotLoaded := "Private key not loaded. Cannot decrypt."
  const DecryptOrStoreFailed := "Decryption failed or storage error occurred."
  const SeedUnavailable := "Seed not decrypted yet or /data/seed.txt unavailable."
  const InvalidCodeFormat := "Invalid code format. Must be a 6-digit string."
  const GenerationFailed := "TOTP generation failed: "
  const VerificationFailed := "TOTP verification setup failed: "

  /** The tolerance `/verify-2fa` always uses: one 30-second step either side. */
  const VerifyWindow := 1

  /** The candidate check of `/verify-2fa`: non-empty, six characters, all digits. */
  predicate IsSixDigitCode(code: string) {
    code != "" && |code| == 6 && Otp.IsDigitString(code)
  }

  /** The characters Python's `str.strip()` removes (those for which `str.isspace` holds). */
  predicate IsPyWhitespace(c: char) {
    '\t' <= c <= '\r' || '\U{1C}' <= c <= ' ' || c == '\U{85}' || c == '\U{A0}'
    || c == '\U{1680}' || '\U{2000}' <= c <= '\U{200A}' || c == '\U{2028}' || c == '\U{2029}'
    || c == '\U{202F}' || c == '\U{205F}' || c == '\U{3000}'
  }

  /** `s` with its leading whitespace removed. */
  function TrimStart(s: string): (r: string)
    ensures |r| <= |s| && r == s[|s| - |r|..]
    ensures forall i :: 0 <= i < |s| - |r| ==> IsPyWhitespace(s[i])
    ensures r == [] || !IsPyWhitespace(r[0])
    ensures s == [] || !IsPyWhitespace(s[0]) ==> r == s
  {
    if s != [] && IsPyWhitespace(s[0]) then TrimStart(s[1..]) else s
  }

  /** `s` with its trailing whitespace removed. */
  function TrimEnd(s: string): (r: string)
    ensures |r| <= |s| && r == s[..|r|]
    ensures forall i :: |r| <= i < |s| ==> IsPyWhitespace(s[i])
    ensures r == [] || !IsPyWhitespace(r[|r| - 1])
    ensures s == [] || !IsPyWhitespace(s[|s| - 1]) ==> r == s
  {
    if s != [] && IsPyWhitespace(s[|s| - 1]) then TrimEnd(s[..|s| - 1]) else s
  }

  /** `str.strip()`: text without leading or trailing whitespace, unchanged when it has none. */
  function Strip(s: string): (r: string)
    ensures |r| <= |s|
    ensures r == [] || (!IsPyWhitespace(r[0]) && !IsPyWhitespace(r[|r| - 1]))
    ensures (s == [] || (!IsPyWhitespace(s[0]) && !IsPyWhitespace(s[|s| - 1]))) ==> r == s
  {
    TrimEnd(TrimStart(s))
  }

  /** `str.strip()` leaves the infix `s[a..b]` of `s`, having removed only whitespace around it. */
  lemma StripRemovesOnlyWhitespace(s: string)
    ensures exists a, b :: 0 <= a <= b <= |s| && Strip(s) == s[a..b]
              && (forall i :: 0 <= i < a ==> IsPyWhitespace(s[i]))
              && (forall i :: b <= i < |s| ==> IsPyWhitespace(s[i]))
  {
    InfixAfterTrims(s, TrimStart(s), Strip(s));
  }

  /**
   * Removing leading whitespace from `s` and then trailing whitespace from
   * the rest leaves an infix of `s` with only whitespace around it.
   */
  lemma InfixAfterTrims(s: string, t: string, r: string)
    requires |t| <= |s| && t == s[|s| - |t|..] && forall i :: 0 <= i < |s| - |t| ==> IsPyWhitespace(s[i])
    requires |r| <= |t| && r == t[..|r|] && forall i :: |r| <= i < |t| ==> IsPyWhitespace(t[i])
    ensures exists a, b :: 0 <= a <= b <= |s| && r == s[a..b]
              && (forall i :: 0 <= i < a ==> IsPyWhitespace(s[i]))
              && (forall i :: b <= i < |s| ==> IsPyWhitespace(s[i]))
  {
    var a := |s| - |t|;
    assert r == s[a..a + |r|];
    assert forall i :: a + |r| <= i < |s| ==> s[i] == t[i - a];
  }

  /** A stored normalised seed is read back unchanged and is always valid hex. */
  lemma StoredSeedConverts(file: Option<string>)
    ensures file.Some? && IsHexSeed(file.value) ==>
              Strip(file.value) == file.value && FromHex(file.value).Some?
  {
    if file.Some? && IsHexSeed(file.value) {
      var seed := file.value;
      assert forall i :: 0 <= i < |seed| ==> !IsAsciiSpace(seed[i]) && IsHexDigit(seed[i]);
      FromHexWithoutSpaces(seed);
      assert !IsPyWhitespace(seed[0]) && !IsPyWhitespace(seed[|seed| - 1]);
    }
  }

  /**
   * The service: the key the startup hook loaded, if any, and the content of
   * the seed file, None while the file does not exist. Base64 decoding and
   * HMAC-SHA1 are the library primitives the endpoints use.
   */
  class Service {
    const base64Decode: Base64Decoder
    const hmacSha1: Otp.HmacSha1
    var privateKey: Option<PrivateKey>
    var seedFile: Option<string>

    /** A fresh process: no key yet, and whatever seed file survives from earlier runs. */
    constructor (persisted: Option<string>, b64: Base64Decoder, hmac: Otp.HmacSha1)
      ensures privateKey == None && seedFile == persisted
      ensures base64Decode == b64 && hmacSha1 == hmac
    {
      base64Decode := b64;
      hmacSha1 := hmac;
      privateKey := None;
      seedFile := persisted;
    }

    /** What every seed this service writes looks like: no file, or a normalised 64-digit hex seed. */
    ghost predicate SeedInvariant()
      reads this
    {
      seedFile.None? || IsHexSeed(seedFile.value)
    }

    /**
     * `load_keys_and_init`: `loaded` is what `load_private_key` returned, None
     * where it raised. A failure is only logged: the service keeps running
     * with the key it had (none, at startup).
     */
    method LoadKeysAndInit(loaded: Option<PrivateKey>)
      modifies this`privateKey
      ensures privateKey == if loaded.Some? then loaded else old(privateKey)
    {
      if loaded.Some? {
        privateKey := loaded;
      }
    }

    /** `read_seed`: the stripped file content, or None when there is no file. */
    function ReadSeed(): (r: Option<string>)
      reads this
      ensures r.None? <==> seedFile.None?
      ensures r.Some? ==> |r.value| <= |seedFile.value|
      ensures SeedInvariant() && seedFile.Some? ==> r == seedFile
    {
      match seedFile
      case None => None
      case Some(text) => Some(Strip(text))
    }

    /**
     * `write_seed`: replaces the file content; `succeeds` is the outcome of the
     * file system calls, and a failed write leaves the old content in place.
     */
    method WriteSeed(hexSeed: string, succeeds: bool) returns (ok: bool)
      modifies this`seedFile
      ensures ok == succeeds
      ensures seedFile == if succeeds then Some(hexSeed) else old(seedFile)
    {
      if succeeds {
        seedFile := Some(hexSeed);
      }
      ok := succeeds;
    }

    /**
     * `POST /decrypt-seed`: without a key, 500 and the store untouched;
     * otherwise decrypt, and on success write the lower-case hex seed and
     * answer "ok". Every decryption or storage failure gives the same 500,
     * whatever its cause. The seed invariant is kept.
     */
    method DecryptAndStoreSeed(encryptedSeed: string, writeSucceeds: bool) returns (r: Response<StatusBody>)
      modifies this`seedFile
      ensures privateKey.None? ==> r == InternalServerError(KeyNotLoaded) && seedFile == old(seedFile)
      ensures privateKey.Some? ==>
                var decrypted := DecryptSeed(encryptedSeed, privateKey.value, base64Decode);
                if decrypted.Success? && writeSucceeds then
                  r == Ok(StatusBody("ok")) && seedFile == Some(decrypted.value)
                else
                  r == InternalServerError(DecryptOrStoreFailed) && seedFile == old(seedFile)
      ensures r.Ok? ==> seedFile.Some? && IsHexSeed(seedFile.value)
      ensures old(SeedInvariant()) ==> SeedInvariant()
    {
      if privateKey.None? {
        return InternalServerError(KeyNotLoaded);
      }
      var decrypted := DecryptSeed(encryptedSeed, privateKey.value, base64Decode);
      if decrypted.Failure? {
        return InternalServerError(DecryptOrStoreFailed);
      }
      var written := WriteSeed(decrypted.value, writeSucceeds);
      if !written {
        return InternalServerError(DecryptOrStoreFailed);
      }
      return Ok(StatusBody("ok"));
    }

    /**
     * `GET /generate-2fa` at time `now`: 500 without a seed; otherwise the
     * RFC 6238 code of the seed for the current step and the seconds it stays
     * valid. Under the seed invariant it succeeds exactly when a seed is stored.
     */
    function Generate2faCode(now: nat): (r: Response<CodeBody>)
      reads this
      ensures r.StatusCode() in {200, 500}
      ensures ReadSeed().None? ==> r == InternalServerError(SeedUnavailable)
      ensures r.Ok? ==>
                ReadSeed().Some? && FromHex(ReadSeed().value).Some?
                && r.body.code == Otp.Hotp(FromHex(ReadSeed().value).value, now / Otp.Interval, hmacSha1)
                && IsSixDigitCode(r.body.code)
                && r.body.validFor == ValidFor(now)
      ensures ReadSeed().Some? && FromHex(ReadSeed().value).None? ==>
                r == InternalServerError(GenerationFailed + InvalidHexSeed.Message())
      ensures ReadSeed().Some? && FromHex(ReadSeed().value).Some? ==>
                r == Ok(CodeBody(Otp.Hotp(FromHex(ReadSeed().value).value, now / Otp.Interval, hmacSha1), ValidFor(now)))
      ensures SeedInvariant() ==> (r.Ok? <==> seedFile.Some?)
    {
      StoredSeedConverts(seedFile);
      match ReadSeed()
      case None => InternalServerError(SeedUnavailable)
      case Some(hexSeed) =>
        match GenerateTotpCodeAndTime(hexSeed, hmacSha1, now)
        case Failure(e) => InternalServerError(GenerationFailed + e.Message())
        case Success(generated) => Ok(CodeBody(generated.code, generated.validFor))
    }

    /**
     * `POST /verify-2fa` at time `now`: 400 for a malformed candidate before
     * the seed is looked at, 500 without a seed, otherwise whether the
     * candidate is the code of the current step or one either side. In the
     * very first step the window reaches counter -1 and the TOTP library
     * raises, giving 500.
     */
    function Verify2faCode(code: string, now: nat): (r: Response<ValidBody>)
      reads this
      ensures r.BadRequest? <==> !IsSixDigitCode(code)
      ensures r.BadRequest? ==> r.detail == InvalidCodeFormat
      ensures IsSixDigitCode(code) && ReadSeed().None? ==> r == InternalServerError(SeedUnavailable)
      ensures IsSixDigitCode(code) && ReadSeed().Some? && FromHex(ReadSeed().value).Some?
              && now / Otp.Interval >= VerifyWindow ==>
                r == Ok(ValidBody(Otp.InWindow(FromHex(ReadSeed().value).value, code, now / Otp.Interval, VerifyWindow, hmacSha1)))
      ensures IsSixDigitCode(code) && ReadSeed().Some? && FromHex(ReadSeed().value).Some?
              && now / Otp.Interval < VerifyWindow ==>
                r == InternalServerError(VerificationFailed + "input must be positive integer")
      ensures IsSixDigitCode(code) && ReadSeed().Some? && FromHex(ReadSeed().value).None? ==>
                r == InternalServerError(VerificationFailed + InvalidHexSeed.Message())
    {
      if !IsSixDigitCode(code) then BadRequest(InvalidCodeFormat)
      else
        match ReadSeed()
        case None => InternalServerError(SeedUnavailable)
        case Some(hexSeed) =>
          match VerifyTotpCode(hexSeed, code, VerifyWindow, hmacSha1, now)
          case Failure(e) => InternalServerError(VerificationFailed + e.Message())
          case Success(valid) => Ok(ValidBody(valid))
    }
  }

  /**
   * Under the seed invariant, a well-formed candidate submitted after the
   * first time step gets an answer exactly when a seed is stored.
   */
  lemma VerifyAnswersWhenSeeded(service: Service, code: string, now: nat)
    requires service.SeedInvariant() && IsSixDigitCode(code) && now >= Otp.Interval
    ensures service.Verify2faCode(code, now).Ok? <==> service.seedFile.Some?
  {
    if service.seedFile.Some? {
      SeedReadsBack(service);
      VerifyAnswersReadableSeed(service, code, now);
    }
  }

  /** Under the seed invariant, a stored seed is read back as a valid hex string. */
  lemma SeedReadsBack(service: Service)
    requires service.SeedInvariant() && service.seedFile.Some?
    ensures service.ReadSeed() == service.seedFile && FromHex(service.seedFile.value).Some?
  {
    StoredSeedConverts(service.seedFile);
  }

  lemma VerifyAnswersReadableSeed(service: Service, code: string, now: nat)
    requires IsSixDigitCode(code) && service.ReadSeed().Some? && FromHex(service.ReadSeed().value).Some?
    requires now / Otp.Interval >= VerifyWindow
    ensures service.Verify2faCode(code, now).Ok?
  {
  }

  /**
   * End to end: a code `/generate-2fa` hands out at `t` is accepted by
   * `/verify-2fa` at any `t'` in the same step or one step either side (past
   * the first step, where the window would reach below counter 0).
   */
  lemma GeneratedCodeIsAccepted(service: Service, t: nat, t': nat)
    requires service.Generate2faCode(t).Ok?
    requires t / Otp.Interval <= t' / Otp.Interval + VerifyWindow && t' / Otp.Interval <= t / Otp.Interval + VerifyWindow
    requires t' >= Otp.Interval
    ensures service.Verify2faCode(service.Generate2faCode(t).body.code, t') == Ok(ValidBody(true))
  {
    var hexSeed := service.ReadSeed().value;
    GeneratedCodeVerifies(hexSeed, service.hmacSha1, t, t', VerifyWindow);
  }

  /** Once the key has failed to load, no decrypt request can store a seed. */
  method StartWithoutKey(persisted: Option<string>, b64: Base64Decoder, hmac: Otp.HmacSha1,
                         encryptedSeed: string, writeSucceeds: bool) returns (r: Response<StatusBody>, stored: Option<string>)
    ensures r == InternalServerError(KeyNotLoaded) && r.StatusCode() == 500
    ensures stored == persisted
  {
    var service := new Service(persisted, b64, hmac);
    service.LoadKeysAndInit(None);
    r := service.DecryptAndStoreSeed(encryptedSeed, writeSucceeds);
    stored := service.seedFile;
  }
}
