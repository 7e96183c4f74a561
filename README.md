# PKI-2FA microservice: seed decryption and TOTP codec

A Dafny model of a small two-factor-authentication service. The service
receives an RSA-encrypted seed, checks it, and stores it. From the stored
seed it hands out 6-digit TOTP codes and verifies submitted codes.

The model has two layers:

- `cryptography_utils.py` is modelled as pure functions and lemmas, in module
  `CryptographyUtils`:
  - `decrypt_seed`: Base64, then RSA-OAEP, then UTF-8, then the 64-hex-digit
    check and lower-casing;
  - `hex_to_base32`: hex, then Base32 without padding;
  - `generate_totp_code_and_time`;
  - `verify_totp_code`.
- `api_server.py` is modelled as the class `ApiServer.Service`:
  - the loaded private key and the content of the seed file are mutable
    fields;
  - the startup hook and `POST /decrypt-seed` are methods that update them;
  - `GET /generate-2fa` and `POST /verify-2fa` are functions that read them.

  The seed file of `storage_utils.py` is the `seedFile` field. It is `None`
  while the file does not exist.

The library behaviour these functions rely on is modelled concretely in
supporting modules:

- `Hex`: Python's `bytes.fromhex`, including its whitespace skipping, and
  ASCII lower-casing (what `str.lower` does to hex text).
- `Utf8`: strict UTF-8 decoding, per RFC 3629.
- `Base32`: `base64.b32encode` and `base64.b32decode`, per section 6 of
  RFC 4648, including the padding checks of the decoder.
- `Otp`: the `pyotp` TOTP object with 6 digits, a 30-second step and
  HMAC-SHA1. This covers HOTP per sections 5.2-5.4 of RFC 4226, the time step
  per section 4 of RFC 6238, `byte_secret`'s re-padding, the
  negative-counter `ValueError`, and the loop of `verify` with its early
  return.

RSA-OAEP, Base64 decoding and HMAC-SHA1 are parameters. An RSA key is
modelled as its OAEP decryption function. HMAC-SHA1 is any function from a
key and a message to 20 bytes. The wall clock is a parameter `now`, in whole
seconds since the Unix epoch.

In the very first 30-second step after the epoch, a plain search of the
previous, current and next steps would answer the verification request. The
code raises instead: with window 1 the window reaches counter -1, the TOTP
library raises `ValueError`, and the endpoint turns it into a 500. The model
keeps this error.

## Model

| member | source | states |
|---|---|---|
| Hex.FromHexToHex | cryptography_utils.py:82 | `bytes.fromhex` gives back any bytes from their lower-case hex text |
| Hex.FromHexAccepted | cryptography_utils.py:81-84 | whatever `bytes.fromhex` accepts consists only of hex digits and whitespace, with two digits per returned byte; anything else raises `ValueError` |
| Hex.FromHexWithoutSpaces | cryptography_utils.py:81-84 | on text without whitespace, `bytes.fromhex` succeeds if and only if the text is an even number of hex digits |
| Hex.ToHexFromHex | cryptography_utils.py:82 | on text without whitespace, the decoded bytes hex-encode back to the text in lower case |
| Hex.FromHexIgnoresCase | cryptography_utils.py:82 | `bytes.fromhex` gives the same result (bytes or error) for a text and its lower-case form |
| Utf8.DecodeAscii | cryptography_utils.py:59 | ASCII bytes always decode, to the characters with the same codes |
| Utf8.DecodedAsciiIsBytes | cryptography_utils.py:59 | decoded text that is all ASCII came from exactly those bytes, one byte per character |
| Base32.EncodeUnpadded | cryptography_utils.py:88-89 | the unpadded encoding of n bytes has ceil(8n/5) symbols, all from the RFC 4648 alphabet |
| Base32.Encode | cryptography_utils.py:88 | `b32encode` output length is a multiple of 8 |
| Base32.PadCountOfEncoding | cryptography_utils.py:88 | the padding `b32encode` adds is always a count (0, 1, 3, 4 or 6) that `b32decode` accepts |
| Base32.TrimEncode | cryptography_utils.py:89 | `rstrip('=')` of `b32encode` output is exactly the unpadded symbols |
| Base32.DecodeEncodeGroups | cryptography_utils.py:88 | reading the symbols back as 5-bit groups gives back the encoded bit string |
| Base32.DecodeEncode | cryptography_utils.py:88 | `b32decode` undoes `b32encode`, with or without case folding |
| Otp.ZeroPadded | cryptography_utils.py:109 | the code has exactly `width` decimal digits with leading zeros, and denotes the value modulo 10^width |
| Otp.CounterBytesBelow64Bits | cryptography_utils.py:115 | a counter below 2^64 is encoded as exactly 8 big-endian bytes that denote it |
| Otp.DynamicTruncation | cryptography_utils.py:115 | dynamic truncation yields a 31-bit value |
| Otp.Hotp | cryptography_utils.py:107-115 | the HOTP code has 6 ASCII digits, and its value is the truncated HMAC of the counter bytes modulo 10^6 |
| Otp.ByteSecretOfEncoding | cryptography_utils.py:88-89 | the TOTP object's `byte_secret` re-pads the unpadded secret and decodes it back to the seed bytes |
| Otp.GenerateOtp | cryptography_utils.py:115 | a negative counter raises "input must be positive integer"; otherwise the result is the HOTP code of the decoded secret |
| Otp.OwnCodeInWindow | cryptography_utils.py:152-155 | the code of counter k lies in every window around c that reaches k |
| Otp.WiderWindow | cryptography_utils.py:135 | a code inside a window is inside every wider window |
| Otp.VerifyRangeIsOr | cryptography_utils.py:152-155 | the early-return verification loop over counters lo..hi is an OR over them; a range starting below 0 raises instead |
| Otp.VerifyWithIsSearch | cryptography_utils.py:152-155 | for any code generator that refuses exactly the negative counters, `verify` with window w searches counters c-w..c+w, and raises when c < w |
| Otp.VerifyIsWindowSearch | cryptography_utils.py:143-155 | `TOTP.verify` accepts exactly the codes of counters within the window of the current step, and raises when the window reaches below 0 |
| CryptographyUtils.DecodesToHexDigits | cryptography_utils.py:59-63 | UTF-8 text of 64 hex digits comes from exactly the 64-byte ASCII hex plaintexts (both directions) |
| CryptographyUtils.CheckPlaintext | cryptography_utils.py:58-66 | the plaintext is accepted if and only if it is 64 ASCII hex bytes; the result is then 64 lower-case hex digits equal to the lower-cased text; failures are `ValueError`s |
| CryptographyUtils.DecryptSeed | cryptography_utils.py:25-66 | Base64 failure gives the Base64 `ValueError`; OAEP failure gives the `RuntimeError`; success holds if and only if both decodings succeed and the plaintext is 64 hex digits, and the seed is then 64 lower-case hex digits equal to the lower-cased plaintext |
| CryptographyUtils.HexToBase32 | cryptography_utils.py:75-91 | fails with "Invalid hexadecimal seed string." if and only if `bytes.fromhex` rejects the input; otherwise gives the unpadded Base32 of the bytes, which the TOTP object decodes back to them |
| CryptographyUtils.HexToBase32Shape | cryptography_utils.py:86-91 | the output uses only the Base32 alphabet and has no '='; it has ceil(8n/5) symbols; re-padded and decoded, it gives back the bytes |
| CryptographyUtils.HexToBase32OfSeed | cryptography_utils.py:75-91 | a 64-digit seed always converts, to 52 symbols |
| CryptographyUtils.HexToBase32IgnoresCase | cryptography_utils.py:82 | the conversion gives the same result for a text and its lower-case form |
| CryptographyUtils.ValidFor | cryptography_utils.py:123-124 | the remaining validity lies between 1 and 30 seconds |
| CryptographyUtils.GenerateTotpCodeAndTime | cryptography_utils.py:93-126 | fails exactly on invalid hex; otherwise the code is the 6-digit HOTP code of the seed bytes for step now/30, and valid_for is 30 - now%30, between 1 and 30 |
| CryptographyUtils.ValidForCountsDown | cryptography_utils.py:121-124 | valid_for counts down by one each second and wraps from 1 to 30 exactly when a new step begins |
| CryptographyUtils.SameStepSameCode | cryptography_utils.py:114-115 | two instants in the same 30-second step get the same code |
| CryptographyUtils.VerifyTotpCode | cryptography_utils.py:128-157 | invalid hex raises; a window reaching below counter 0 raises "input must be positive integer"; otherwise the result is true if and only if some counter within the window of now/30 yields the code |
| CryptographyUtils.GeneratedCodeVerifies | cryptography_utils.py:93-157 | a code generated at t is accepted at any t' whose step is within w steps of t's step, provided the step of t' is at least w (below that the TOTP library raises for a negative counter) |
| CryptographyUtils.AcceptanceMonotoneInWindow | cryptography_utils.py:135 | a code accepted with window w1 is accepted with any wider window that does not reach below 0 |
| ApiServer.TrimStart | storage_utils.py:11 | the result is a suffix of the input; every removed character is whitespace, the result does not start with whitespace, and nothing is removed when the input does not start with whitespace |
| ApiServer.TrimEnd | storage_utils.py:11 | the result is a prefix of the input; every removed character is whitespace, the result does not end with whitespace, and nothing is removed when the input does not end with whitespace |
| ApiServer.Strip | storage_utils.py:11 | `str.strip()` leaves no whitespace at either end, and changes nothing when there is none |
| ApiServer.StripRemovesOnlyWhitespace | storage_utils.py:11 | `str.strip()` returns an infix `s[a..b]` of its input, with only whitespace before `a` and after `b` |
| ApiServer.StoredSeedConverts | storage_utils.py:10-11 | a stored 64-digit lower-case seed is read back unchanged and always hex-decodes |
| ApiServer.Service.constructor | api_server.py:30-31 | a fresh process has no key and finds whatever seed file earlier runs left |
| ApiServer.Service.LoadKeysAndInit | api_server.py:33-46 | a loaded key is installed; a failure to load is only logged and leaves the key absent |
| ApiServer.Service.ReadSeed | storage_utils.py:5-13 | no file gives None; a stored normalised seed is read back unchanged |
| ApiServer.Service.WriteSeed | storage_utils.py:15-24 | reports the outcome of the write; a successful write replaces the content, and a failed one leaves it |
| ApiServer.Service.DecryptAndStoreSeed | api_server.py:50-76 | no key gives 500 with the store untouched; success stores the lower-case seed and answers "ok"; every decryption or storage failure gives the same 500 and leaves the store; the store invariant (empty, or a 64-digit lower-case hex seed) is kept |
| ApiServer.Service.Generate2faCode | api_server.py:80-103 | no seed gives 500; a stored text that does not hex-decode gives 500 with "TOTP generation failed: Invalid hexadecimal seed string."; any stored text that hex-decodes (normalised or not) gives 200 with the 6-digit HOTP code of its bytes for the current step and its remaining validity; under the store invariant it succeeds if and only if a seed is stored |
| ApiServer.Service.Verify2faCode | api_server.py:107-137 | a malformed code gives 400 whatever is stored; no seed gives 500; a stored text that does not hex-decode gives 500 with "TOTP verification setup failed: Invalid hexadecimal seed string."; otherwise the answer is whether some step within 1 of the current one yields the code, or 500 with "input must be positive integer" in the first step |
| ApiServer.VerifyAnswersWhenSeeded | api_server.py:107-137 | under the store invariant, a well-formed code gets an answer after the first step if and only if a seed is stored |
| ApiServer.SeedReadsBack | storage_utils.py:5-13 | under the store invariant, the stored seed is read back unchanged and is valid hex |
| ApiServer.GeneratedCodeIsAccepted | api_server.py:80-137 | a code `/generate-2fa` hands out at t is accepted by `/verify-2fa` at any t' within one step of t, once t' >= 30 (in the first step the window reaches counter -1 and the endpoint answers 500) |
| ApiServer.StartWithoutKey | api_server.py:33-58 | once the key has failed to load, a decrypt request gets 500 and leaves the seed file as it was |

## Left out

- RSA-OAEP decryption, Base64 decoding and HMAC-SHA1 are parameters, not implementations. They belong to the `cryptography` package and the standard library. The model fixes only their interfaces and failure points.
- `load_private_key` (cryptography_utils.py:12-23) is represented only by its outcome, the `loaded` argument of `LoadKeysAndInit`. Reading and parsing PEM files is file I/O and library code.
- `CryptographyUtils.DecryptSeed`: the lenient rules of `base64.b64decode` are not modelled. It ignores non-alphabet characters and accepts certain paddings. The decoder is a parameter.
- `CryptographyUtils.GenerateTotpCodeAndTime`: one clock reading `now` serves both `totp.now()` and `time.time()`. The source reads the clock twice, so at a step boundary its code and `valid_for` can belong to different steps.
- The time is whole seconds. Fractional `time.time()` values are truncated by `int()` in the source and by `int(... / 30)` in the library. The model starts from the truncated value.
- `ApiServer.Service.Verify2faCode`: only ASCII digits pass the format check. Python's `str.isdigit` also accepts other Unicode digits, which the library then compares after NFKC normalisation. Unicode tables are not modelled.
- The comparison in `verify` is modelled as string equality. Its constant-time behaviour and NFKC normalisation (for ASCII digits, the identity) are not modelled.
- The `digest=hashes.SHA1` argument is taken to mean HMAC-SHA1. Whether the hashing module accepts that class as a digest constructor is library behaviour and is not modelled.
- `ApiServer.Service.ReadSeed`: read errors other than a missing file, and text-mode newline translation, are not modelled. The seed file is its content or absent.
- `ApiServer.Service.WriteSeed`: a partially written file is not modelled. A write either replaces the content or fails and leaves it; `succeeds` covers both a failed `os.makedirs` and a failed write.
- Exceptions other than the caught `ValueError`, `RuntimeError` and `IOError` are not modelled. None arises in the model.
- Logging (`print`), FastAPI routing and response schemas, and the server entry point are left out as glue. So are `generate_keys.py`, `request_seed.py` and `scripts/log_2fa_cron.py`: they are clients or tooling, not the core.
