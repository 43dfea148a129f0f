/** The note envelope pipeline: key derivation from a password, secret-box
    encryption under the derived key, and URL-safe transport of both the
    ciphertext and the key. Randomness is the `Entropy` stream, consumed in
    the order the source draws from it. */
module Crypto {
  import opened Wrappers
  import opened Bytes
  import opened Errors
  import opened Nacl
  import opened KdfRegistry
  import Base64Url
  import Utf8

  /** The default size of `generate_random_chars`, and so of the fallback
      password of `encrypt_note`. */
  const RandomPasswordSize: nat := 32

  /** `generate_random_chars(size)`: the next `size` bytes of the stream. */
  function GenerateRandomChars(e: Entropy, size: nat): (r: (bytes, Entropy))
    ensures |r.0| == size
    ensures forall i :: 0 <= i < size ==> r.0[i] == e.source(e.pos + i)
    ensures r.1 == Entropy(e.source, e.pos + size)
  {
    Random(e, size)
  }

  /** `url_safe_encode(what)`. */
  function UrlSafeEncode(what: bytes): (s: string)
    ensures UrlSafeDecode(s) == Success(what)
    ensures |s| == Base64Url.EncodedLength(|what|)
    ensures forall i :: 0 <= i < |s| ==> Base64Url.IsEncodedChar(s[i])
  {
    Base64Url.DecodeEncode(what);
    Base64Url.EncodeChars(what);
    Base64Url.Encode(what)
  }

  /** `url_safe_decode(what)`; a malformed encoding surfaces through
      `safe_decryption` like any other decryption failure. */
  function UrlSafeDecode(what: string): (r: Result<bytes, Error>)
    ensures r.Failure? ==> r.error == DecryptionFailure
    ensures r.Success? ==> |what| == Base64Url.EncodedLength(|r.value|)
  {
    match Base64Url.Decode(what)
    case None => Failure(DecryptionFailure)
    case Some(b) => Success(b)
  }

  /** `generate_url_safe_pass(size)`: an encoded random secret. */
  function GenerateUrlSafePass(e: Entropy, size: nat): (r: (string, Entropy))
    ensures UrlSafeDecode(r.0) == Success(Random(e, size).0)
    ensures |r.0| == Base64Url.EncodedLength(size)
    ensures r.1 == Random(e, size).1
  {
    var (chars, e') := GenerateRandomChars(e, size);
    (UrlSafeEncode(chars), e')
  }

  /** A `SecretBox` object: the key it was built with. */
  datatype SecretBox = SecretBox(key: bytes)

  /** `craft_secret_box(key)`: the constructor refuses any key whose length
      is not `KEY_SIZE`. */
  function CraftSecretBox(key: bytes): (r: Result<SecretBox, Error>)
    ensures r.Success? <==> |key| == KeySize
    ensures r.Success? ==> r.value.key == key
    ensures r.Failure? ==> r.error == CryptoError
  {
    if |key| == KeySize then Success(SecretBox(key)) else Failure(CryptoError)
  }

  /** `encrypt_with_box(what, box)`: `SecretBox.encrypt` draws a fresh nonce. */
  function EncryptWithBox(p: Provider, what: bytes, box: SecretBox, e: Entropy): (r: bytes)
    ensures SecretBoxCorrect(p) && |box.key| == KeySize ==> p.decrypt(box.key, r) == Some(what)
  {
    var (nonce, _) := Random(e, NonceSize);
    p.encrypt(box.key, nonce, what)
  }

  /** `encrypt_with_key(what, key)`. */
  function EncryptWithKey(p: Provider, what: bytes, key: bytes, e: Entropy): (r: Result<bytes, Error>)
    ensures r.Success? <==> |key| == KeySize
    ensures r.Failure? ==> r.error == CryptoError
  {
    var box :- CraftSecretBox(key);
    Success(EncryptWithBox(p, what, box, e))
  }

  /** `decrypt_with_box(what, box)`; `safe_decryption` maps the library's
      failure to the one decryption failure. */
  function DecryptWithBox(p: Provider, what: bytes, box: SecretBox): (r: Result<bytes, Error>)
    ensures r.Success? <==> p.decrypt(box.key, what).Some?
    ensures r.Success? ==> p.decrypt(box.key, what) == Some(r.value)
    ensures r.Failure? ==> r.error == DecryptionFailure
  {
    match p.decrypt(box.key, what)
    case None => Failure(DecryptionFailure)
    case Some(plain) => Success(plain)
  }

  /** `decrypt_with_key(what, key)`. */
  function DecryptWithKey(p: Provider, what: bytes, key: bytes): (r: Result<bytes, Error>)
    ensures r.Success? ==> |key| == KeySize && p.decrypt(key, what) == Some(r.value)
    ensures |key| == KeySize && p.decrypt(key, what).Some? ==> r.Success?
    ensures |key| != KeySize ==> r == Failure(CryptoError)
    ensures |key| == KeySize && p.decrypt(key, what).None? ==> r == Failure(DecryptionFailure)
  {
    var box :- CraftSecretBox(key);
    DecryptWithBox(p, what, box)
  }

  /** Decrypting what `encrypt_with_key` produced, under the same key, gives
      back the plaintext. */
  lemma EncryptWithKeyRoundTrip(p: Provider, what: bytes, key: bytes, e: Entropy)
    requires SecretBoxCorrect(p)
    requires EncryptWithKey(p, what, key, e).Success?
    ensures DecryptWithKey(p, EncryptWithKey(p, what, key, e).value, key) == Success(what)
  {
    var (nonce, _) := Random(e, NonceSize);
    assert EncryptWithKey(p, what, key, e).value == p.encrypt(key, nonce, what);
  }

  /** The KDF call of `craft_key_from_password`: always a key of `KEY_SIZE`
      bytes, from the password and the salt and costs of `params`. */
  function DeriveKey(p: Provider, password: bytes, params: KdfParams): (r: Option<bytes>)
    ensures KdfHonoursSize(p) && r.Some? ==> |r.value| == KeySize
  {
    p.kdf(params.kdf, KeySize, password, params.salt, params.ops, params.mem)
  }

  /** `craft_key_from_password(password, kdf_params)`: with no parameters,
      fresh default ones from `craft_kdf_params()`. A KDF that rejects its
      cost parameters raises, uncaught. */
  function CraftKeyFromPassword(p: Provider, lib: Sodium, password: bytes, kdfParams: Option<KdfParams>, e: Entropy)
    : (r: Result<(bytes, Entropy), Error>)
    ensures kdfParams.Some? ==>
      && (r.Success? <==> DeriveKey(p, password, kdfParams.value).Some?)
      && (r.Success? ==> r.value == (DeriveKey(p, password, kdfParams.value).value, e))
    ensures r.Failure? ==> r.error == CryptoError
  {
    DefaultKdfParams(lib, e);
    var chosen: Result<(KdfParams, Entropy), Error> := match kdfParams
      case Some(kp) => Success((kp, e))
      case None => CraftKdfParams(lib, DefaultAlgorithm, DefaultHardness, e);
    match chosen
    case Failure(err) => Failure(err)
    case Success((params, e')) =>
      match DeriveKey(p, password, params)
      case None => Failure(CryptoError)
      case Some(key) => Success((key, e'))
  }

  /** Without parameters, `craft_key_from_password` derives with scrypt at
      the moderate tier and a fresh salt of scrypt's salt size. */
  lemma CraftKeyFromPasswordDefaults(p: Provider, lib: Sodium, password: bytes, e: Entropy)
    ensures var (salt, e') := Random(e, lib.scrypt.saltBytes);
      var params := KdfParams(ScryptSalsa208Sha256Kdf, salt, lib.scrypt.moderate.ops, lib.scrypt.moderate.mem);
      CraftKeyFromPassword(p, lib, password, None, e) == CraftKeyFromPassword(p, lib, password, Some(params), e')
  {
    DefaultKdfParams(lib, e);
  }

  /** `encrypt_with_password(what, password)`: the ciphertext and the key it
      was made under. */
  function EncryptWithPassword(p: Provider, lib: Sodium, what: bytes, password: bytes, e: Entropy)
    : (r: Result<(bytes, bytes), Error>)
    ensures r.Failure? ==> r.error == CryptoError
    ensures r.Success? ==> |r.value.1| == KeySize
    ensures r.Success? ==>
      && CraftKeyFromPassword(p, lib, password, None, e).Success?
      && r.value.1 == CraftKeyFromPassword(p, lib, password, None, e).value.0
  {
    var (key, e') :- CraftKeyFromPassword(p, lib, password, None, e);
    var ciphertext :- EncryptWithKey(p, what, key, e');
    Success((ciphertext, key))
  }

  /** The second half of `encrypt_with_password`'s result decrypts the first. */
  lemma EncryptWithPasswordRoundTrip(p: Provider, lib: Sodium, what: bytes, password: bytes, e: Entropy)
    requires SecretBoxCorrect(p)
    requires EncryptWithPassword(p, lib, what, password, e).Success?
    ensures var (ciphertext, key) := EncryptWithPassword(p, lib, what, password, e).value;
      DecryptWithKey(p, ciphertext, key) == Success(what)
  {
    var (key, e') := CraftKeyFromPassword(p, lib, password, None, e).value;
    EncryptWithKeyRoundTrip(p, what, key, e');
  }

  /** The two shareable artifacts: the encoded ciphertext and the encoded
      derived key (not the password). */
  datatype Envelope = Envelope(ciphertext: string, key: string)

  /** The password `encrypt_note` derives from: `(password or "").encode()`,
      or 32 random bytes when that is empty. */
  function NotePassword(password: Option<string>, e: Entropy): (r: (bytes, Entropy))
    ensures |r.0| > 0
  {
    var text := if password.Some? then password.value else "";
    var encoded := Utf8.Encode(text);
    if encoded != [] then (encoded, e) else GenerateRandomChars(e, RandomPasswordSize)
  }

  /** The fallback happens exactly for an absent or empty password; any other
      password is used as its UTF-8 bytes and draws no randomness. */
  lemma NotePasswordFallback(password: Option<string>, e: Entropy)
    ensures password.None? || password == Some("") ==>
      NotePassword(password, e) == Random(e, RandomPasswordSize)
    ensures password.Some? && password.value != "" ==>
      NotePassword(password, e) == (Utf8.Encode(password.value), e)
  {
  }

  /** `encrypt_note(note, password)`. */
  function EncryptNote(p: Provider, lib: Sodium, note: bytes, password: Option<string>, e: Entropy)
    : (r: Result<Envelope, Error>)
    ensures r.Failure? ==> r.error == CryptoError
  {
    var (secret, e') := NotePassword(password, e);
    var (ciphertext, key) :- EncryptWithPassword(p, lib, note, secret, e');
    Success(Envelope(UrlSafeEncode(ciphertext), UrlSafeEncode(key)))
  }

  /** `encrypt_note_with_params(note, password, algorithm, hardness)`: no
      password fallback, explicit KDF selection. */
  function EncryptNoteWithParams(p: Provider, lib: Sodium, note: bytes, password: bytes, algorithm: string, hardness: string, e: Entropy)
    : (r: Result<Envelope, Error>)
    ensures r.Failure? ==> r.error.InvalidUsage? || r.error == CryptoError
  {
    var (params, e1) :- CraftKdfParams(lib, algorithm, hardness, e);
    var (key, e2) :- CraftKeyFromPassword(p, lib, password, Some(params), e1);
    var ciphertext :- EncryptWithKey(p, note, key, e2);
    Success(Envelope(UrlSafeEncode(ciphertext), UrlSafeEncode(key)))
  }

  /** `decrypt_note(payload, key)`: decode both artifacts, then decrypt with
      the decoded key itself; no key is re-derived. Every failure comes out
      of `safe_decryption` as the same outcome. */
  function DecryptNote(p: Provider, payload: string, key: string): (r: Result<bytes, Error>)
    ensures r.Failure? ==> r.error == DecryptionFailure
    ensures r.Success? <==>
      && Base64Url.Decode(payload).Some? && Base64Url.Decode(key).Some?
      && |Base64Url.Decode(key).value| == KeySize
      && p.decrypt(Base64Url.Decode(key).value, Base64Url.Decode(payload).value).Some?
    ensures r.Success? ==>
      p.decrypt(Base64Url.Decode(key).value, Base64Url.Decode(payload).value) == Some(r.value)
  {
    var decoded :=
      var ciphertext :- UrlSafeDecode(payload);
      var rawKey :- UrlSafeDecode(key);
      DecryptWithKey(p, ciphertext, rawKey);
    match decoded
    case Success(note) => Success(note)
    case Failure(_) => Failure(DecryptionFailure)
  }

  /** The minimal flow round-trips: the envelope from `encrypt_note` opens
      with `decrypt_note`. */
  lemma EncryptNoteRoundTrip(p: Provider, lib: Sodium, note: bytes, password: Option<string>, e: Entropy)
    requires SecretBoxCorrect(p)
    requires EncryptNote(p, lib, note, password, e).Success?
    ensures var env := EncryptNote(p, lib, note, password, e).value;
      DecryptNote(p, env.ciphertext, env.key) == Success(note)
  {
    var (secret, e') := NotePassword(password, e);
    EncryptWithPasswordRoundTrip(p, lib, note, secret, e');
  }

  /** So does the flow with explicit parameters, for every supported pair. */
  lemma EncryptNoteWithParamsRoundTrip(p: Provider, lib: Sodium, note: bytes, password: bytes, algorithm: string, hardness: string, e: Entropy)
    requires SecretBoxCorrect(p)
    requires EncryptNoteWithParams(p, lib, note, password, algorithm, hardness, e).Success?
    ensures var env := EncryptNoteWithParams(p, lib, note, password, algorithm, hardness, e).value;
      DecryptNote(p, env.ciphertext, env.key) == Success(note)
  {
    var (params, e1) := CraftKdfParams(lib, algorithm, hardness, e).value;
    var (key, e2) := CraftKeyFromPassword(p, lib, password, Some(params), e1).value;
    EncryptWithKeyRoundTrip(p, note, key, e2);
  }

  /** What an envelope looks like: both artifacts are base64url text, and the
      key artifact, the encoding of a `KEY_SIZE`-byte key, is 44 characters
      ending in one `=`. */
  predicate WellFormedEnvelope(env: Envelope) {
    && (forall i :: 0 <= i < |env.ciphertext| ==> Base64Url.IsEncodedChar(env.ciphertext[i]))
    && (forall i :: 0 <= i < |env.key| ==> Base64Url.IsEncodedChar(env.key[i]))
    && |env.key| == 44 && env.key[43] == Base64Url.Pad && env.key[42] != Base64Url.Pad
  }

  /** The artifacts of an envelope built from a ciphertext and a key of
      `KEY_SIZE` bytes. */
  lemma EnvelopeOfKey(ciphertext: bytes, key: bytes)
    requires |key| == KeySize
    ensures WellFormedEnvelope(Envelope(UrlSafeEncode(ciphertext), UrlSafeEncode(key)))
  {
    var s := Base64Url.Encode(key);
    Base64Url.EncodedLengthClosedForm(|key|);
    Base64Url.PadCountClosedForm(|key|);
    assert |s| == 44;
    Base64Url.EncodePadding(key);
    assert Base64Url.PadCount(|key|) == 1;
    assert s[43] == Base64Url.Pad && s[42] != Base64Url.Pad;
  }

  lemma EncryptNoteWellFormed(p: Provider, lib: Sodium, note: bytes, password: Option<string>, e: Entropy)
    requires EncryptNote(p, lib, note, password, e).Success?
    ensures WellFormedEnvelope(EncryptNote(p, lib, note, password, e).value)
  {
    var (secret, e') := NotePassword(password, e);
    var (ciphertext, key) := EncryptWithPassword(p, lib, note, secret, e').value;
    EnvelopeOfKey(ciphertext, key);
  }

  lemma EncryptNoteWithParamsWellFormed(p: Provider, lib: Sodium, note: bytes, password: bytes, algorithm: string, hardness: string, e: Entropy)
    requires EncryptNoteWithParams(p, lib, note, password, algorithm, hardness, e).Success?
    ensures WellFormedEnvelope(EncryptNoteWithParams(p, lib, note, password, algorithm, hardness, e).value)
  {
    var (params, e1) := CraftKdfParams(lib, algorithm, hardness, e).value;
    var (key, e2) := CraftKeyFromPassword(p, lib, password, Some(params), e1).value;
    var ciphertext := EncryptWithKey(p, note, key, e2).value;
    EnvelopeOfKey(ciphertext, key);
  }

  /** With a KDF that honours the key size, `encrypt_note` fails exactly when
      the KDF refuses the default (scrypt, moderate) derivation. */
  lemma EncryptNoteFailsOnlyInKdf(p: Provider, lib: Sodium, note: bytes, password: Option<string>, e: Entropy)
    requires KdfHonoursSize(p)
    ensures var (secret, e1) := NotePassword(password, e);
      var (salt, _) := Random(e1, lib.scrypt.saltBytes);
      var params := KdfParams(ScryptSalsa208Sha256Kdf, salt, lib.scrypt.moderate.ops, lib.scrypt.moderate.mem);
      EncryptNote(p, lib, note, password, e).Failure? <==> DeriveKey(p, secret, params).None?
  {
    var (secret, e1) := NotePassword(password, e);
    CraftKeyFromPasswordDefaults(p, lib, secret, e1);
  }

  /** `encrypt_note_with_params` raises `InvalidUsage` exactly for the pairs
      the registry does not list, and passes `craft_kdf_params`' error on
      unchanged; with a KDF that honours the key size, its only other
      failure is the KDF refusing the derivation. */
  lemma EncryptNoteWithParamsFailure(p: Provider, lib: Sodium, note: bytes, password: bytes, algorithm: string, hardness: string, e: Entropy)
    ensures var r := EncryptNoteWithParams(p, lib, note, password, algorithm, hardness, e);
      && (r.Failure? && r.error.InvalidUsage? <==> (algorithm, hardness) !in AlgorithmCombinations(lib))
      && (r.Failure? && r.error.InvalidUsage? ==> CraftKdfParams(lib, algorithm, hardness, e) == Failure(r.error))
    ensures KdfHonoursSize(p) && CraftKdfParams(lib, algorithm, hardness, e).Success? ==>
      (EncryptNoteWithParams(p, lib, note, password, algorithm, hardness, e).Failure? <==>
       DeriveKey(p, password, CraftKdfParams(lib, algorithm, hardness, e).value.0).None?)
  {
    CraftKdfParamsAccepts(lib, algorithm, hardness, e);
  }

  /** The key artifact of `encrypt_note` is the encoding of the key the KDF
      derived from the password actually used (the fallback one when none
      is given), with scrypt at the moderate tier and the salt drawn next. */
  lemma EncryptNoteKey(p: Provider, lib: Sodium, note: bytes, password: Option<string>, e: Entropy)
    requires EncryptNote(p, lib, note, password, e).Success?
    ensures var (secret, e1) := NotePassword(password, e);
      var salt := Random(e1, lib.scrypt.saltBytes).0;
      var params := KdfParams(ScryptSalsa208Sha256Kdf, salt, lib.scrypt.moderate.ops, lib.scrypt.moderate.mem);
      && DeriveKey(p, secret, params).Some?
      && UrlSafeDecode(EncryptNote(p, lib, note, password, e).value.key) == Success(DeriveKey(p, secret, params).value)
  {
    var (secret, e1) := NotePassword(password, e);
    CraftKeyFromPasswordDefaults(p, lib, secret, e1);
  }

  /** The key artifact of `encrypt_note_with_params` is the encoding of the
      key the KDF derived from the password with the chosen parameters. */
  lemma EncryptNoteWithParamsKey(p: Provider, lib: Sodium, note: bytes, password: bytes, algorithm: string, hardness: string, e: Entropy)
    requires EncryptNoteWithParams(p, lib, note, password, algorithm, hardness, e).Success?
    ensures CraftKdfParams(lib, algorithm, hardness, e).Success?
    ensures var params := CraftKdfParams(lib, algorithm, hardness, e).value.0;
      && DeriveKey(p, password, params).Some?
      && UrlSafeDecode(EncryptNoteWithParams(p, lib, note, password, algorithm, hardness, e).value.key)
         == Success(DeriveKey(p, password, params).value)
  {
  }

  /** The ciphertext artifact of `encrypt_note` is the box's encryption of the
      note under the derived key, with the nonce drawn from the stream after
      the fallback password (if any) and the salt. */
  lemma EncryptNoteCiphertext(p: Provider, lib: Sodium, note: bytes, password: Option<string>, e: Entropy)
    requires EncryptNote(p, lib, note, password, e).Success?
    ensures var (secret, e1) := NotePassword(password, e);
      var (salt, e2) := Random(e1, lib.scrypt.saltBytes);
      var params := KdfParams(ScryptSalsa208Sha256Kdf, salt, lib.scrypt.moderate.ops, lib.scrypt.moderate.mem);
      && DeriveKey(p, secret, params).Some?
      && UrlSafeDecode(EncryptNote(p, lib, note, password, e).value.ciphertext)
         == Success(p.encrypt(DeriveKey(p, secret, params).value, Random(e2, NonceSize).0, note))
  {
    var (secret, e1) := NotePassword(password, e);
    CraftKeyFromPasswordDefaults(p, lib, secret, e1);
  }

  /** The ciphertext artifact of `encrypt_note_with_params` is the box's
      encryption of the note under the derived key, with the nonce drawn from
      the stream right after the salt. */
  lemma EncryptNoteWithParamsCiphertext(p: Provider, lib: Sodium, note: bytes, password: bytes, algorithm: string, hardness: string, e: Entropy)
    requires EncryptNoteWithParams(p, lib, note, password, algorithm, hardness, e).Success?
    ensures CraftKdfParams(lib, algorithm, hardness, e).Success?
    ensures var (params, e1) := CraftKdfParams(lib, algorithm, hardness, e).value;
      && e1 == Random(e, |params.salt|).1
      && DeriveKey(p, password, params).Some?
      && UrlSafeDecode(EncryptNoteWithParams(p, lib, note, password, algorithm, hardness, e).value.ciphertext)
         == Success(p.encrypt(DeriveKey(p, password, params).value, Random(e1, NonceSize).0, note))
  {
  }
}
