/** The PyNaCl services the pipeline calls, kept abstract: the random byte
    source, the two password-hashing KDFs and XSalsa20-Poly1305 `SecretBox`.
    The primitives are parameters (a `Provider`), and the only fact assumed
    about them is `SecretBoxCorrect`. */
module Nacl {
  import opened Wrappers
  import opened Bytes

  /** `secret.SecretBox.KEY_SIZE` (crypto_secretbox_KEYBYTES). */
  const KeySize: nat := 32
  /** `secret.SecretBox.NONCE_SIZE` (crypto_secretbox_NONCEBYTES). */
  const NonceSize: nat := 24

  /** The two KDF function references the registry stores. */
  datatype KdfId =
    | Argon2iKdf                 // pwhash.argon2i.kdf
    | ScryptSalsa208Sha256Kdf    // pwhash.kdf_scryptsalsa208sha256

  /** The foreign primitives.
      - `kdf(which, size, password, salt, ops, mem)`: a key of `size`
        bytes, or None where the library raises on the cost parameters;
      - `encrypt(key, nonce, plaintext)`: `SecretBox(key).encrypt(plaintext, nonce)`,
        the nonce-prefixed authenticated ciphertext;
      - `decrypt(key, ciphertext)`: `SecretBox(key).decrypt(ciphertext)`,
        None where the library raises (too short, forged, wrong key). */
  datatype Provider = Provider(
    kdf: (KdfId, nat, bytes, bytes, nat, nat) -> Option<bytes>,
    encrypt: (bytes, bytes, bytes) -> bytes,
    decrypt: (bytes, bytes) -> Option<bytes>)

  /** The one axiom about the secret box: decrypting, under a key, what was
      encrypted under that same key gives back the plaintext. */
  ghost predicate SecretBoxCorrect(p: Provider) {
    forall key: bytes, nonce: bytes, m: bytes
      {:trigger p.encrypt(key, nonce, m)}
      :: |key| == KeySize && |nonce| == NonceSize ==> p.decrypt(key, p.encrypt(key, nonce, m)) == Some(m)
  }

  /** A KDF that succeeds returns a key of the size asked for. Not needed for
      the round trips; used to tell when the pipeline can fail. */
  ghost predicate KdfHonoursSize(p: Provider) {
    forall which: KdfId, size: nat, password: bytes, salt: bytes, ops: nat, mem: nat
      {:trigger p.kdf(which, size, password, salt, ops, mem)}
      :: p.kdf(which, size, password, salt, ops, mem).Some? ==> |p.kdf(which, size, password, salt, ops, mem).value| == size
  }

  /** A cryptographically secure random source: an unbounded stream of bytes
      and how much of it has been consumed. */
  datatype Entropy = Entropy(source: nat -> byte, pos: nat)

  /** `nacl_utils.random(size)`: the next `size` bytes of the stream. */
  function Random(e: Entropy, size: nat): (r: (bytes, Entropy))
    ensures |r.0| == size
    ensures forall i :: 0 <= i < size ==> r.0[i] == e.source(e.pos + i)
    ensures r.1.source == e.source && r.1.pos == e.pos + size
  {
    (seq(size, i requires 0 <= i < size => e.source(e.pos + i)), Entropy(e.source, e.pos + size))
  }
}
