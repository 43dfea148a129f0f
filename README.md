# cenotes-lib note envelopes, modelled in Dafny

This project models the note-envelope pipeline of `cenotes_lib/crypto.py`. A
note is encrypted under a key derived from a password with a memory-hard KDF
(scrypt or argon2i at a named hardness tier). The result is two URL-safe
base64 artifacts: the ciphertext and the derived key. `decrypt_note` turns the
two artifacts back into the note.

The model is purely functional, like the source. Its modules:

- `Wrappers` (`wrappers.dfy`): `Option`, and `Result` for exceptions.
- `Bytes` (`bytes.dfy`): byte strings.
- `Dict` (`dict.dfy`): Python dicts as insertion-ordered association lists, with `Keys` and `Get`.
- `Errors` (`errors.dfy`): the exceptions callers see. These are `InvalidUsage` (the missing key plus the full option list), `CryptoError` (a PyNaCl exception, which the encrypt paths and `decrypt_with_key` do not catch; inside `decrypt_note`, `safe_decryption` turns it into `DecryptionFailure`) and `DecryptionFailure` (what `safe_decryption` raises).
- `Nacl` (`nacl.dfy`): abstract PyNaCl.
  - A `Provider` value holds the KDF, `SecretBox.encrypt` and `SecretBox.decrypt` as function values.
  - `SecretBoxCorrect` is the one assumption about them: decrypting under key k what was encrypted under k gives back the plaintext.
  - `Entropy` stands for the random source: an unbounded byte stream that calls consume in the order the source draws from it.
- `Base64Url` (`base64url.dfy`): the base64url alphabet of section 5 of RFC 4648, with the `=` padding of section 4. The encoder and decoder are written out. The model proves that decoding inverts encoding, and that encoding inverts decoding on strings whose pad bits are zero.
- `Utf8` (`utf8.dfy`): `str.encode()` (UTF-8, RFC 3629), plus a strict decoder used as its inverse.
- `KdfRegistry` (`kdf_registry.dfy`): the algorithm table and the option listing. Also `craft_kdf_params` and the (algorithm, tier) pairs that `benchmark_algorithms` enumerates.
  - The libsodium constants are the fields of a `Sodium` value.
  - `Sodium.argon2i` is `None` when the library lacks argon2i.
- `Crypto` (`crypto.dfy`): key derivation, the secret box, the codec wrappers, `encrypt_note`, `encrypt_note_with_params` and `decrypt_note`, with the end-to-end round trips.

Behaviour of the code that the model keeps:
- The encoder emits `=` padding, and the decoder expects it.
- Decoding failures and authentication failures both come out of `safe_decryption` as one `DecryptionFailure`.
- `encrypt_note` takes its password as text and calls `.encode()` on it.
- An unknown algorithm or tier raises `InvalidUsage`, naming the missing key and listing the supported options.
- The key artifact of both encrypt functions is the encoded derived key. `decrypt_note` decodes it and uses it directly as the secret-box key.

## Model

| member | source | states |
|---|---|---|
| Dict.Keys | cenotes_lib/crypto.py:50 | `keys()` lists every key of the dict once, in insertion order |
| Dict.Get | cenotes_lib/crypto.py:56-58 | a lookup succeeds exactly for a present key. It returns a value bound to that key, and with distinct keys it returns exactly the bound value |
| KdfRegistry.Argon2iParams | cenotes_lib/crypto.py:9-27 | the argon2i entry has a KDF and tiers exactly when the library has argon2i. Otherwise its tier table is empty |
| KdfRegistry.SupportedAlgorithmParams | cenotes_lib/crypto.py:30-45 | the registry's keys are argon2i then scrypt |
| KdfRegistry.SupportedAlgorithmParamsWellFormed | cenotes_lib/crypto.py:30-45 | keys are distinct at both levels, and every entry that has tiers also has a KDF and a salt size |
| KdfRegistry.OptionsOf | cenotes_lib/crypto.py:48-51 | one listing entry per registry key, in order, paired with exactly that algorithm's tier names |
| KdfRegistry.SupportedAlgorithmOptionsListing | cenotes_lib/crypto.py:48-51 | the listing is argon2i then scrypt, each with min/interactive/moderate/sensitive. argon2i has an empty tier tuple when unavailable |
| KdfRegistry.SupportedAlgorithmOptions | cenotes_lib/crypto.py:48-51 | `tuple(get_supported_algorithm_options())` lists argon2i then scrypt |
| KdfRegistry.CraftKdfParams | cenotes_lib/crypto.py:54-62 | every failure is `InvalidUsage` carrying the full supported-options listing. On success the salt is the next bytes of the stream, and the stream moves past them |
| KdfRegistry.CraftKdfParamsAccepts | cenotes_lib/crypto.py:54-62 | `craft_kdf_params(a, h)` succeeds if and only if (a, h) is one of the pairs the benchmark enumerates |
| KdfRegistry.CraftKdfParamsRegistered | cenotes_lib/crypto.py:54-58 | for a registered algorithm and tier the result is the registered KDF, a fresh salt of exactly the algorithm's `saltbytes`, and exactly the tier's (ops, mem) |
| KdfRegistry.UnknownAlgorithm | cenotes_lib/crypto.py:59-62 | an unknown algorithm name yields `InvalidUsage` naming that name, with the options listing |
| KdfRegistry.UnknownTier | cenotes_lib/crypto.py:56-62 | an unknown tier of an available algorithm yields `InvalidUsage` naming the tier, with the options listing |
| KdfRegistry.Argon2iUnavailable | cenotes_lib/crypto.py:26-27 | without argon2i, every argon2i request fails at the `kdf` lookup. The listing shows argon2i with no tiers, and no argon2i pair is enumerated |
| KdfRegistry.DefaultKdfParams | cenotes_lib/crypto.py:54 | `craft_kdf_params()` is scrypt at the moderate tier with a fresh scrypt-sized salt |
| KdfRegistry.Combinations | cenotes_lib/crypto.py:152-155 | every enumerated pair names an algorithm of the registry |
| KdfRegistry.AlgorithmCombinations | cenotes_lib/crypto.py:152-155 | every enumerated pair is for argon2i or scrypt |
| KdfRegistry.CombinationsMembership | cenotes_lib/crypto.py:152-155 | a pair is enumerated exactly when the registry has that algorithm and that tier under it |
| KdfRegistry.AlgorithmCombinationsListing | cenotes_lib/crypto.py:152-155 | the enumerated pairs in order: argon2i's four tiers (if available), then scrypt's four |
| Nacl.Random | cenotes_lib/crypto.py:57 | `random(n)` yields exactly n bytes, the next n of the stream, and advances the stream by n |
| Base64Url.IndexToChar | cenotes_lib/crypto.py:85-86 | every sextet maps to a base64url alphabet character |
| Base64Url.IndexToCharInverse | cenotes_lib/crypto.py:84-92 | the character of a sextet maps back to that sextet |
| Base64Url.CharToIndexInverse | cenotes_lib/crypto.py:84-92 | the value of an alphabet character maps back to that character |
| Base64Url.CharToIndex | cenotes_lib/crypto.py:91-92 | a character has a value exactly when it is in the alphabet `A-Z a-z 0-9 - _` |
| Base64Url.Encode | cenotes_lib/crypto.py:85-86 | the output has four characters for every started group of three input bytes |
| Base64Url.EncodeLength | cenotes_lib/crypto.py:85-86 | the output length is 4 * ceil(n / 3) |
| Base64Url.EncodePadding | cenotes_lib/crypto.py:85-86 | the output is alphabet characters followed by `PadCount(n)` `=` characters |
| Base64Url.PadCountClosedForm | cenotes_lib/crypto.py:85-86 | the number of `=` is (3 - n mod 3) mod 3 |
| Base64Url.EncodeChars | cenotes_lib/crypto.py:85-86 | every output character is an alphabet character or `=` |
| Base64Url.Decode | cenotes_lib/crypto.py:91-92 | an accepted string is exactly as long as the encoding of the bytes it decodes to, so its length is a multiple of 4 |
| Base64Url.DecodeAccepts | cenotes_lib/crypto.py:91-92 | an accepted string consists only of alphabet characters and `=` |
| Base64Url.DecodeEncode | cenotes_lib/crypto.py:84-92 | decoding the encoding of any byte string gives it back |
| Base64Url.EncodeDecode | cenotes_lib/crypto.py:84-92 | re-encoding a decoded string with zero pad bits gives the string back |
| Base64Url.EncodeCanonical | cenotes_lib/crypto.py:85-86 | every encoding has zero pad bits |
| Base64Url.EncodeIff | cenotes_lib/crypto.py:84-92 | `encode(b) == s` if and only if `s` decodes to `b` and has zero pad bits, so the codec is a bijection onto canonical strings |
| Utf8.Encode | cenotes_lib/crypto.py:123 | the UTF-8 encoding is empty exactly for the empty string, and has between 1 and 4 bytes per character |
| Utf8.DecodeEncode | cenotes_lib/crypto.py:123 | UTF-8 decoding inverts `.encode()`, so distinct passwords give distinct bytes |
| Crypto.GenerateRandomChars | cenotes_lib/crypto.py:65-66 | the next `size` bytes of the stream, byte for byte, with the stream advanced past them |
| Crypto.GenerateUrlSafePass | cenotes_lib/crypto.py:69-70 | the text decodes to the drawn random bytes and is exactly as long as their encoding |
| Crypto.UrlSafeEncode | cenotes_lib/crypto.py:84-86 | `url_safe_decode(url_safe_encode(b)) == b`. The output has four characters per started group of three bytes, over the URL-safe alphabet plus `=` |
| Crypto.UrlSafeDecode | cenotes_lib/crypto.py:89-92 | a malformed encoding fails with the single decryption failure. An accepted text is exactly as long as the encoding of what it decodes to |
| Crypto.CraftSecretBox | cenotes_lib/crypto.py:80-81 | a box is built exactly for keys of `KEY_SIZE` bytes. Any other key raises |
| Crypto.EncryptWithBox | cenotes_lib/crypto.py:95-97 | under the secret-box axiom, whatever nonce `encrypt` draws, a box with a `KEY_SIZE` key decrypts its output back to the input |
| Crypto.EncryptWithKey | cenotes_lib/crypto.py:100-102 | encryption succeeds exactly for a `KEY_SIZE`-byte key. Otherwise the library error propagates |
| Crypto.DecryptWithBox | cenotes_lib/crypto.py:111-114 | succeeds exactly when the box opens, and then returns the box's plaintext. A box failure is the single decryption failure |
| Crypto.DecryptWithKey | cenotes_lib/crypto.py:117-119 | a `KEY_SIZE`-byte key and an opening box give the box's plaintext. A wrong-size key raises the library error from `SecretBox(key)`, outside `safe_decryption`. A box failure is the decryption failure |
| Crypto.EncryptWithKeyRoundTrip | cenotes_lib/crypto.py:100-119 | under the secret-box axiom, `decrypt_with_key(encrypt_with_key(m, k), k) == m` |
| Crypto.DeriveKey | cenotes_lib/crypto.py:76-77 | a KDF that honours the requested size yields a `KEY_SIZE`-byte key |
| Crypto.CraftKeyFromPassword | cenotes_lib/crypto.py:73-77 | with explicit parameters, the key is the KDF's output for `KEY_SIZE` bytes from that salt and those costs. It fails exactly when the KDF refuses, and the only failure is the library's error |
| Crypto.CraftKeyFromPasswordDefaults | cenotes_lib/crypto.py:75-77 | without parameters, the key is derived with scrypt at the moderate tier and a fresh scrypt-sized salt |
| Crypto.EncryptWithPassword | cenotes_lib/crypto.py:105-108 | the returned key is `craft_key_from_password(password)` with the default parameters, of `KEY_SIZE` bytes. The only failure is the library's error |
| Crypto.EncryptWithPasswordRoundTrip | cenotes_lib/crypto.py:105-108 | the returned key decrypts the returned ciphertext to the input |
| Crypto.NotePassword | cenotes_lib/crypto.py:122-123 | the password actually used is never empty |
| Crypto.NotePasswordFallback | cenotes_lib/crypto.py:122-123 | an absent or empty password becomes 32 random bytes. Any other password is its UTF-8 bytes and draws no randomness |
| Crypto.EncryptNote | cenotes_lib/crypto.py:122-128 | `encrypt_note` never raises `InvalidUsage`. Its only failure is the library's error |
| Crypto.EncryptNoteWithParams | cenotes_lib/crypto.py:131-137 | failures are `InvalidUsage` or the library's error |
| Crypto.DecryptNote | cenotes_lib/crypto.py:140-142 | every failure is the single decryption failure. It succeeds exactly when both artifacts decode, the key has `KEY_SIZE` bytes and the box opens, and then it returns what the box returned |
| Crypto.EncryptNoteRoundTrip | cenotes_lib/crypto.py:122-142 | under the secret-box axiom, `decrypt_note(*encrypt_note(note, pw)) == note` for every password, including none |
| Crypto.EncryptNoteWithParamsRoundTrip | cenotes_lib/crypto.py:131-142 | under the secret-box axiom, `decrypt_note(*encrypt_note_with_params(note, pw, a, h)) == note` |
| Crypto.EnvelopeOfKey | cenotes_lib/crypto.py:127-128 | the artifacts of a ciphertext and a `KEY_SIZE` key are URL-safe text, and the key artifact is 44 characters ending in a single `=` |
| Crypto.EncryptNoteWellFormed | cenotes_lib/crypto.py:122-128 | every envelope from `encrypt_note` is well formed in that sense |
| Crypto.EncryptNoteWithParamsWellFormed | cenotes_lib/crypto.py:131-137 | every envelope from `encrypt_note_with_params` is well formed in that sense |
| Crypto.EncryptNoteKey | cenotes_lib/crypto.py:122-128 | the key artifact decodes to the scrypt/moderate KDF output of the password actually used, with the salt drawn after any fallback password |
| Crypto.EncryptNoteWithParamsKey | cenotes_lib/crypto.py:131-137 | the key artifact decodes to the KDF output of the password under `craft_kdf_params(algorithm, hardness)` |
| Crypto.EncryptNoteCiphertext | cenotes_lib/crypto.py:122-128 | the ciphertext artifact decodes to the box's encryption of the note under the derived key. Its nonce is drawn from the stream after the fallback password and the salt |
| Crypto.EncryptNoteWithParamsCiphertext | cenotes_lib/crypto.py:131-137 | the ciphertext artifact decodes to the box's encryption of the note under the derived key. Its nonce is drawn from the stream right after the salt |
| Crypto.EncryptNoteFailsOnlyInKdf | cenotes_lib/crypto.py:122-128 | with a KDF that honours the requested size, `encrypt_note` fails exactly when the default scrypt derivation is refused |
| Crypto.EncryptNoteWithParamsFailure | cenotes_lib/crypto.py:131-137 | `InvalidUsage` arises exactly for the pairs the registry does not list, and the error passes through unchanged. Otherwise it fails only when the KDF refuses |

## Left out

- The primitives: `pwhash.kdf_scryptsalsa208sha256`, `pwhash.argon2i.kdf` and `SecretBox.encrypt/decrypt` are foreign calls.
  - They are function values of a `Provider`, and scrypt, Argon2 and XSalsa20-Poly1305 are not implemented.
  - The round trips assume only `SecretBoxCorrect`.
  - The failure lemmas also assume `KdfHonoursSize`, that a KDF returns the size it was asked for.
- The concrete `SALTBYTES`, `OPSLIMIT_*` and `MEMLIMIT_*` values come from libsodium and are fields of `Sodium`. Nothing is proved about how the tiers' costs compare with one another or with `min`: that depends on those values.
- `KEY_SIZE` is 32 and `NONCE_SIZE` is 24, the XSalsa20-Poly1305 sizes. The nonce-prefixed layout of a ciphertext stays inside the abstract `encrypt`/`decrypt`.
- Randomness is an input stream, not entropy.
  - Nothing is proved about two encryptions of one note producing different ciphertexts. That depends on the randomness.
  - Nothing is proved about a modified ciphertext being rejected. That would need an authenticity assumption about the box beyond `SecretBoxCorrect`. The model only states that `decrypt_note` returns exactly what the box returned after opening.
- `enforce_bytes` and `safe_decryption` live in a helpers module that is not part of this model.
  - The note, and the password of `encrypt_note_with_params`, are taken as bytes. Coercion from text is not modelled.
  - All decoding and decryption failures are the one `DecryptionFailure`.
- `encrypt_note` called with a non-empty `bytes` password raises `AttributeError` on `.encode()`. The model's password type is text, so that case does not arise.
- Utf8.Encode: Python strings can hold lone surrogates, which make `.encode()` raise. A Dafny `char` cannot hold one, so that error is not modelled.
- Base64Url.Decode: stricter than Python's non-validating `urlsafe_b64decode`. Python discards characters outside the alphabet, also accepts `+` and `/`, ignores text after the padding, and skips a `=` that comes before the second character of a quad (so `AAAA====` and `=AAAA` decode to three bytes). The model rejects all of these. Encoder output decodes identically in both.
- Crypto.UrlSafeDecode: inherits that strictness from `Base64Url.Decode`.
- The exact text of the `InvalidUsage` message is not modelled. The model keeps the missing key and the options tuple it embeds.
- `benchmark_algorithms` times each pair with `timeit` and a dynamic import. Only the enumeration of pairs is modelled.
- The lazy `map` objects the encrypt functions return are modelled as an `Envelope` pair.
- `setup.py` is packaging metadata and is not part of this model.
