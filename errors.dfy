/** The exceptions a caller of the note pipeline can observe. */
module Errors {

  /** `get_supported_algorithm_options()` materialised as a tuple: each
      algorithm name with the names of its hardness tiers. */
  type Options = seq<(string, seq<string>)>

  datatype Error =
      /** `InvalidUsage`: a registry lookup missed; carries the key that
          was missing and the full list of supported options. */
    | InvalidUsage(missing: string, options: Options)
      /** An exception of the crypto library: the KDF refused its cost
          parameters, or `SecretBox` refused a key whose length is not
          `KEY_SIZE`. The encrypt paths and `decrypt_with_key` let it
          through; inside `decrypt_note`, `safe_decryption` turns it into
          `DecryptionFailure`. */
    | CryptoError
      /** What `safe_decryption` turns every decoding or decryption failure
          into; one undifferentiated outcome. */
    | DecryptionFailure
}
