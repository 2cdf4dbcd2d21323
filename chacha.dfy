/** `chacha20_encrypt` / `chacha20_decrypt`: the 8-byte nonce prefix. */
module ChaCha {
  import opened Wrappers
  import opened PyBytes
  import opened Primitives

  /** Nonce lengths ChaCha20.new accepts (8 or 12 for ChaCha20, 24 for XChaCha20). */
  predicate AcceptedNonceLength(n: nat) {
    n == 8 || n == 12 || n == 24
  }

  /** `nonce + cipher.encrypt(data)`, with `nonce` the nonce the library drew for this call. */
  function ChaChaEncrypt(stream: StreamCipher, data: seq<byte>, key: Key, nonce: seq<byte>): (r: seq<byte>)
    requires |nonce| == ChaChaNonceSize
    ensures ChaChaNonceSize <= |r| && r[..ChaChaNonceSize] == nonce
  {
    nonce + stream.encrypt(key, nonce, data)
  }

  /** Split at 8 and decrypt the rest under that nonce. */
  function ChaChaDecrypt(stream: StreamCipher, encData: seq<byte>, key: Key): (r: Result<seq<byte>>)
    ensures r.Ok? ==> ChaChaNonceSize <= |encData|
    ensures r.Ok? ==>
      r.value == stream.decrypt(key, encData[..ChaChaNonceSize], encData[ChaChaNonceSize..])
  {
    var nonce := Prefix(encData, ChaChaNonceSize);
    var ciphertext := Suffix(encData, ChaChaNonceSize);
    if !AcceptedNonceLength(|nonce|) then Err(IncorrectNonceLength)
    else Ok(stream.decrypt(key, nonce, ciphertext))
  }

  /** The output is the nonce followed by a ciphertext as long as the data, and
      splitting it at 8 gives back that nonce and that ciphertext. */
  lemma ChaChaFraming(stream: StreamCipher, data: seq<byte>, key: Key, nonce: seq<byte>)
    requires ValidStream(stream) && |nonce| == ChaChaNonceSize
    ensures var out := ChaChaEncrypt(stream, data, key, nonce);
      && |out| == ChaChaNonceSize + |data|
      && Prefix(out, ChaChaNonceSize) == nonce
      && Suffix(out, ChaChaNonceSize) == stream.encrypt(key, nonce, data)
  {
    SplitConcat(nonce, stream.encrypt(key, nonce, data));
  }

  /** `chacha20_decrypt(chacha20_encrypt(d, k), k) == d`. */
  lemma ChaChaRoundTrip(stream: StreamCipher, data: seq<byte>, key: Key, nonce: seq<byte>)
    requires ValidStream(stream) && |nonce| == ChaChaNonceSize
    ensures ChaChaDecrypt(stream, ChaChaEncrypt(stream, data, key, nonce), key) == Ok(data)
  {
    ChaChaFraming(stream, data, key, nonce);
  }

  /** Only a buffer too short to hold the 8-byte nonce is rejected: a prefix of at most
      8 bytes has an accepted length only when it is 8 bytes long. */
  lemma ChaChaDecryptErrors(stream: StreamCipher, encData: seq<byte>, key: Key)
    ensures ChaChaDecrypt(stream, encData, key).Err? <==> |encData| < ChaChaNonceSize
    ensures ChaChaDecrypt(stream, encData, key).Err? ==>
      ChaChaDecrypt(stream, encData, key).error == IncorrectNonceLength
  {
  }
}
