# Mailvelope crypto and key-server helpers, modelled in Dafny

This project models three pieces of `src/modules/crypto.js` and the request
helpers of `src/modules/mveloKeyServer.js` in the Mailvelope browser extension:

- **Bounded secure-random sampling** (`getSecureRandom`, `getSecureRandomUint`):
  rejection sampling of 32-bit words masked to the bit length of `to - from`.
  JavaScript's `&` works on int32 values, and the model applies ToInt32 and a
  bit-by-bit AND explicitly (`JsNumber`). The random source is a parameter: the
  sequence of words the source would return. The loop becomes a search for the
  first accepted draw, which yields `None` if every draw in the sequence is
  rejected.
- **Base-32 random strings** (`randomString`): one `toString(32)` digit of
  `byte % 32` per byte of the filled buffer. The buffer is the parameter.
- **The passphrase-only symmetric envelope** (`symEncrypt`): an OpenPGP message
  of exactly two packets. The first is a version-4 Symmetric-Key Encrypted
  Session Key packet (section 5.3 of RFC 4880) with AES-256 (identifier 9,
  section 9.2) and an 8-byte S2K salt. The second is a Symmetrically Encrypted
  Integrity Protected Data packet (section 5.13). The first packet carries no
  encrypted key, so the S2K-derived key is the session key (section 3.7.2.2).
  The packet objects, the packet list and the message are classes whose fields
  the method sets step by step. The library's key derivation and cipher are
  function-valued parameters.
- **Key-server helpers**: `url` picks one query parameter by precedence (email,
  then fingerprint, then keyId). `checkStatus` accepts exactly the 2xx
  statuses. `lookup` decides when a key is returned, and it filters user ids
  only for a lookup by email alone.

Modules: `Types` (bytes, `Option`, `Result`), `JsNumber` (powers of two,
ToInt32/ToUint32, `&`, `toString(radix)` and `parseInt`), `SecureRandom`,
`RandomString`, `SymEnvelope`, `KeyServer`.

Where the code and its JSDoc (crypto.js:19-25, 54-59) leave room, the model
follows the code:

- The code rejects any falsy passphrase: a missing one as well as the empty
  string.
- The code does not check `from > to`. The JSDoc makes `from` the minimum, so
  `from <= to` is a precondition of the model.

## Model

| member | source | states |
|---|---|---|
| `JsNumber.ToInt32` | src/modules/crypto.js:63 | the int32 conversion of an operand of `&` lies in [-2^31, 2^31), is the identity below 2^31, subtracts 2^32 from [2^31, 2^32), and keeps the value modulo 2^32 |
| `JsNumber.AndBits` | src/modules/crypto.js:63 | the AND of the low n bits of two naturals is below 2^n |
| `JsNumber.BitAnd` | src/modules/crypto.js:63 | `a & b` on JavaScript numbers always yields an int32 value |
| `JsNumber.AndLowMask` | src/modules/crypto.js:63 | ANDing with the mask `2^k - 1` keeps exactly the value modulo 2^k |
| `JsNumber.ToRadixString` | src/modules/crypto.js:62 | `n.toString(radix)` is a non-empty string whose every character is a digit below the radix |
| `JsNumber.ParseToRadix` | src/modules/crypto.js:14 | `parseInt` of `n.toString(radix)` gives back `n`, for every n and radix 2..36 |
| `JsNumber.SingleDigit` | src/modules/crypto.js:14 | a value below the radix renders as a single character whose digit value is that value |
| `JsNumber.BinaryLength` | src/modules/crypto.js:62 | the length of `n.toString(2)` is the b with 2^(b-1) <= n < 2^b for n >= 1, and 1 for n = 0 |
| `SecureRandom.ReadUint32` | src/modules/crypto.js:69-74 | four bytes are read big-endian: the word's most significant byte is the first byte and its least significant byte the last |
| `SecureRandom.ReadUint32OfBytes` | src/modules/crypto.js:69-74 | reading back the four big-endian bytes of a word gives the word |
| `SecureRandom.BytesOfReadUint32` | src/modules/crypto.js:69-74 | the big-endian bytes of the word read from four bytes are those bytes |
| `SecureRandom.Abs` | src/modules/crypto.js:66 | `Math.abs(x)` is the non-negative one of `x` and `-x` |
| `SecureRandom.MaskBits` | src/modules/crypto.js:62 | `bits` is the bit length of the span: at least 1, `span < 2^bits`, and `2^(bits-1) <= span` for a positive span |
| `SecureRandom.Masked` | src/modules/crypto.js:63 | the masked draw is an int32 value whose low 32 bits are the draw modulo `2^bits` for every `bits` from 1 to 32 |
| `SecureRandom.Accepts` | src/modules/crypto.js:63 | the loop stops on a draw exactly when, for a span below 2^31, the draw modulo `2^bits` does not exceed the span; from 2^31 on it stops on every draw |
| `SecureRandom.Pick` | src/modules/crypto.js:66 | `from + Math.abs(masked)` lies in `[from, from + 2^31]`, and for a span below 2^31 it is `from` plus the draw modulo `2^bits` |
| `SecureRandom.MaskBitsBounds` | src/modules/crypto.js:62-63 | `bits` is between 1 and 32 and the mask `2^bits - 1` covers the span; for a positive span the mask is below `2 * span + 1`, so more than half of the masked values are accepted |
| `SecureRandom.MaskedValue` | src/modules/crypto.js:63 | with int32 `&`, a mask of at most 31 bits gives the draw modulo 2^bits, and the 32-bit mask (int32 -1) gives the draw read as signed |
| `SecureRandom.PickInRange` | src/modules/crypto.js:63-66 | an accepted draw yields `from + Math.abs(masked)` within `[from, from + span]` |
| `SecureRandom.Sample` | src/modules/crypto.js:60-67 | the sampled value, when there is one, lies in `[from, to]` |
| `SecureRandom.SampleIsFirstAccepted` | src/modules/crypto.js:61-66 | the result is computed from the first accepted draw; every earlier draw was rejected |
| `SecureRandom.SampleNoneIffAllRejected` | src/modules/crypto.js:61-65 | no value comes out exactly when every draw is rejected by the loop condition |
| `SecureRandom.DegenerateRange` | src/modules/crypto.js:62-66 | for `from == to`, `bits` is 1, a draw is accepted exactly when it is even, and the result is `from` |
| `SecureRandom.GetSecureRandom` | src/modules/crypto.js:60-67 | the `while` loop returns the sampled value of the draw sequence, within `[from, to]` |
| `SecureRandom.WideMaskBits` | src/modules/crypto.js:62 | a span of 2^31 or more has 32 binary digits |
| `SecureRandom.WideSpanResultsCapped` | src/modules/crypto.js:62-66 | for a span of 2^31 or more every draw is accepted and the result never exceeds `from + 2^31` |
| `SecureRandom.WideSpanMissesTop` | src/modules/crypto.js:60-67 | for a span above 2^31, `to` is never returned, whatever the draws |
| `SecureRandom.WideSpanFoldsDraws` | src/modules/crypto.js:66 | on `[0, 2^32 - 1]` the draws 1 and 2^32 - 1 both give 1 |
| `SecureRandom.MaskedUnsigned` | src/modules/crypto.js:63 | the masked draw read as unsigned is the draw modulo 2^bits |
| `SecureRandom.SampleUnsigned` | src/modules/crypto.js:60-67 | the sampler with unsigned masking also stays within `[from, to]` |
| `SecureRandom.EveryValueReachable` | src/modules/crypto.js:60-67 | with unsigned masking, every value of `[from, to]` is returned for some draw |
| `SecureRandom.NarrowDrawAgrees` | src/modules/crypto.js:63 | below 2^31 the int32 and the unsigned masking of a draw agree |
| `SecureRandom.NarrowSpansAgree` | src/modules/crypto.js:60-67 | below 2^31 the source's sampler and the unsigned one agree on every draw sequence |
| `RandomString.RandomString` | src/modules/crypto.js:8-17 | the string has one character per byte, each in `0-9a-v`, and character i has digit value `buf[i] % 32`, so an empty buffer gives `""` |
| `RandomString.DigitsDetermineString` | src/modules/crypto.js:13-15 | two base-32 strings with the same digit values are equal, so the contract of `RandomString` fixes its result |
| `SymEnvelope.ReadSymmetric` | src/modules/crypto.js:31 | reading a symmetric algorithm identifier gives the algorithm with that identifier, and nothing for 5, 6 and above 10 |
| `SymEnvelope.ReadSymmetricOfId` | src/modules/crypto.js:31 | every algorithm is read back from its identifier |
| `SymEnvelope.PacketList.constructor` | src/modules/crypto.js:32 | a new packet list is empty |
| `SymEnvelope.PacketList.Push` | src/modules/crypto.js:41 | pushing appends the packet at the end |
| `SymEnvelope.SymEncryptedSessionKey.constructor` | src/modules/crypto.js:35 | a new session key packet has no S2K specifier and no session key |
| `SymEnvelope.SymEncryptedSessionKey.Decrypt` | src/modules/crypto.js:40 | with no encrypted key, the session key becomes the S2K key of the passphrase, salt and algorithm key size, and nothing else changes |
| `SymEnvelope.SymEncryptedIntegrityProtected.constructor` | src/modules/crypto.js:44 | a new data packet references no packet list (`null`) and holds no ciphertext |
| `SymEnvelope.SymEncryptedIntegrityProtected.Encrypt` | src/modules/crypto.js:46 | given a referenced packet list, the ciphertext is the encryption of its packets under the given algorithm and key, and the reference is kept |
| `SymEnvelope.Message.constructor` | src/modules/crypto.js:51 | the message holds the given packet list |
| `SymEnvelope.Envelope` | src/modules/crypto.js:26-52 | fails exactly for a falsy passphrase; otherwise gives two packets: an ESK (version 4, AES-256, the salt, the S2K-derived session key) and a SEIP whose ciphertext encrypts the plaintext under that algorithm and key, with its packet list empty |
| `SymEnvelope.SymEncrypt` | src/modules/crypto.js:26-52 | a falsy passphrase throws and no message is built; otherwise a fresh message whose fresh list holds exactly [ESK, SEIP], fresh objects whose contents are the `Envelope`, the SEIP's packet reference replaced by a fresh list |
| `SymEnvelope.EnvelopeRoundTrip` | src/modules/crypto.js:19-24 | if the cipher decrypts what it encrypts, opening the envelope with the same passphrase gives back the plaintext packets |
| `SymEnvelope.WrongPassphraseRejected` | src/modules/crypto.js:44-46 | if the integrity check rejects other keys, a passphrase that derives another key cannot open the envelope |
| `KeyServer.Selection` | src/modules/mveloKeyServer.js:103-109 | the selected option is truthy, every option of higher precedence is not, and nothing is selected exactly when no option is truthy or options are missing |
| `KeyServer.ParseQueryUrl` | src/modules/mveloKeyServer.js:102-109 | a URL built from one parameter and its encoded value reads back as that parameter and value |
| `KeyServer.ParameterDelimiter` | src/modules/mveloKeyServer.js:104-108 | a URL with one parameter whose value has no delimiters contains one `?`, one `=` and no `&` |
| `KeyServer.Url` | src/modules/mveloKeyServer.js:101-111 | the URL reads back as the endpoint with the selected parameter and its encoded value, it is the bare `https://keys.mailvelope.com/api/v1/key` exactly when nothing is selected, and with an escaping encoder it has at most one `?` and `=` and no `&` |
| `KeyServer.CheckStatus` | src/modules/mveloKeyServer.js:119-127 | the response comes back exactly for `200 <= status < 300`; otherwise the error carries the status text as message and the response |
| `KeyServer.JsonKey.constructor` | src/modules/mveloKeyServer.js:33 | the parsed JSON object holds the armored key it was read with |
| `KeyServer.LookupResult` | src/modules/mveloKeyServer.js:29-60 | a key is returned only for status 200 with a body; other statuses give nothing; without email-only options the key is returned unchanged; errors happen only on the email-only path (or for missing options); there success means no parse error, exactly one key and a user id left after filtering, and the key is the armor of the filtered key |
| `KeyServer.EmailOnly` | src/modules/mveloKeyServer.js:36 | user ids are filtered only for a lookup by email alone, and such a lookup sends the email as the query parameter |
| `KeyServer.EmailQueryWithoutFiltering` | src/modules/mveloKeyServer.js:36 | a lookup queried by email but not filtered also names a key id or fingerprint |
| `KeyServer.LookupStricterThanCheckStatus` | src/modules/mveloKeyServer.js:32 | every status for which `lookup` returns a key passes `checkStatus`, while a 204 passes `checkStatus` and gives no key |
| `KeyServer.Lookup` | src/modules/mveloKeyServer.js:29-60 | the method throws and returns as `LookupResult` says; a returned object is the parsed JSON object, whose armored key is replaced only on a successful filtering path |

## Findings

| source | as written | input that shows it | evidently intended | confidence | as-written member | corrected member |
|---|---|---|---|---|---|---|
| src/modules/crypto.js:62-66 | for a span of 2^31 or more, `bits` is 32. The mask `2^32 - 1` then becomes the int32 value -1 under `&`, so the masked draw is read as signed. No draw is rejected, and `Math.abs` folds the negative values back. Results never exceed `from + 2^31`, and most values are hit by two draws. | `getSecureRandom(0, 4294967295)` never returns 4294967295. Draws 1 and 4294967295 both return 1. | the masked draw read as unsigned (`>>> 0`), which makes every value of `[from, to]` reachable by exactly the draws congruent to it | high; not executed | `SecureRandom.WideSpanMissesTop` | `SecureRandom.EveryValueReachable` |

`SecureRandom.Sample` and `SecureRandom.GetSecureRandom` model the code as
written. `SecureRandom.SampleUnsigned` is the corrected sampler.
`SecureRandom.NarrowSpansAgree` proves that the two coincide for spans below
2^31, so the defect is confined to wide spans. No other part of the model
calls the sampler.

## Left out

- `src/content-scripts/syncHandler.js` is not part of this model: it is message-passing glue with no computed behaviour.
- The randomness sources (`window.crypto.getRandomValues`, `openpgp.crypto.random.getRandomBytes`) become parameters: the draw sequence, the byte buffer and the salt.
- `GetSecureRandom`: over a finite draw sequence it returns `None` once every draw is rejected, because the source's loop ends only with probability one. Statistical uniformity is not stated; the acceptance-ratio bound in `MaskBitsBounds` stands in for it.
- `GetSecureRandom`: requires `from <= to`, because the JSDoc makes `from` the minimum. With `from > to` the source does not always loop forever. For a negative span, `toString(2)` includes the sign, so `bits` is one more than the bit length of `from - to`. The loop never ends when `0 < from - to < 2^30`, because the mask is then non-negative. It also never ends when `from - to > 2^31`, because the int32 value -1 masks the draw to at least `-2^31`. When `2^30 <= from - to <= 2^31`, the mask is the int32 value -1, so a draw with `ToInt32(draw) <= to - from` ends the loop. The call then returns a value above `from`: `getSecureRandom(2^30, 0)` with the draw `0xC0000000` returns `2^31`. It also requires `to - from < 2^32`, which is the model's own restriction: the JSDoc bounds only `to` to 32 bits, not the span. The excluded case is a negative `from` with a large `to`, such as `from = -1, to = 2^32 - 1`: the span is 2^32, `bits` is 33, the mask converts to the int32 value -1, and the first draw returns `from + Math.abs(ToInt32(draw))`. Numbers are modelled as exact integers, not IEEE doubles.
- `RandomString`: takes the filled buffer, whose length is the requested length. `new Uint8Array` throwing on a negative length is not modelled.
- The OpenPGP library internals are parameters whose behaviour is not modelled: S2K key derivation, AES-256, the MDC, packet serialisation, `readArmored`, `filterUserIdsByEmail` and `armor()`. The round-trip and wrong-passphrase lemmas assume the cipher properties they need as preconditions.
- The S2K specifier's default type, hash and iteration count are not modelled; only its salt is.
- `SymEnvelope.SymEncryptedSessionKey.Decrypt`: models only the path taken here, a packet with no encrypted session key. Unwrapping an encrypted key is not modelled.
- `SymEnvelope.SymEncryptedSessionKey.constructor`: does not state the library's default version and algorithm, because `symEncrypt` overwrites both.
- `SymEnvelope.ReadSymmetric`: returns `None` for an unassigned identifier instead of modelling what the library does there. Only identifier 9 is ever read.
- `window.fetch`, `response.json()`, `console.log` and the `async` control flow are not modelled. `Lookup` receives the response and the parsed JSON object (or `null`) as parameters.
- `upload` and `remove` are not modelled as operations. Each is a fetch followed by `checkStatus` (modelled as `CheckStatus`); `upload` uses the bare endpoint (`Url` with no options).
- `Lookup`: the thrown error messages, which embed the JSON object's string form, are replaced by the `LookupError` constructors. A rejected `response.json()` is not modelled.
- `KeyServer.Options`: fields are strings or missing; non-string truthy values are not modelled. `encodeURIComponent` is a parameter; only its escaping of `?`, `=` and `&` is assumed, where a contract needs it.
