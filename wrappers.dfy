/** Result values for the error paths of the adapters, and the byte type. */
module Wrappers {

  /** A Python `bytes` element. */
  type byte = x: int | 0 <= x < 256

  datatype Option<+T> = None | Some(value: T)

  /** The three algorithms that `run_test` compares. */
  datatype Algorithm = Aes | ChaCha20 | Rsa

  /** The exceptions the adapters and `run_test` can raise. */
  datatype Error =
    | IncorrectIvLength       // AES.new: the IV is not 16 bytes
    | NotBlockAligned         // CBC decrypt: ciphertext length is not a multiple of 16
    | IndexOutOfRange         // `decrypted[-1]` on an empty buffer
    | IncorrectNonceLength    // ChaCha20.new: the nonce is not 8, 12 or 24 bytes
    | IncorrectCiphertextLength // PKCS1_OAEP decrypt: block length is not the key size
    | IncorrectDecryption     // PKCS1_OAEP decrypt: the OAEP encoding does not check
    | RoundTripFailed(algorithm: Algorithm) // an `assert ... == original_data` in run_test

  datatype Result<+T> = Ok(value: T) | Err(error: Error)
}
