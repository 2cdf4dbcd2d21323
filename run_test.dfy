/** `run_test`: encrypt the file with each algorithm, check every round trip, and report. */
module CryptoCompare {
  import opened Wrappers
  import opened Primitives
  import opened AesCbc
  import opened ChaCha
  import opened RsaOaep

  /** What one run keeps: the file size and the three ciphertexts it saves to disk. */
  datatype TestReport = TestReport(
    fileSize: nat,
    aesOutput: seq<byte>,
    chachaOutput: seq<byte>,
    rsaOutput: seq<byte>)

  /** The exception an `assert decrypt(output, key) == original_data` raises when it does
      not pass: the decryption's own exception, or AssertionError. */
  function Failure(algorithm: Algorithm, decrypted: Result<seq<byte>>): Error {
    if decrypted.Err? then decrypted.error else RoundTripFailed(algorithm)
  }

  /** One run of `run_test` on `originalData`. The keys, the IV and the nonce are the
      random values the run draws; the key pair is the one loaded from the key files. */
  method RunTest(
    originalData: seq<byte>,
    cbc: CbcCipher, stream: StreamCipher, rsaPub: OaepCipher, rsaPri: OaepCipher,
    aesKey: Key, iv: seq<byte>, chachaKey: Key, nonce: seq<byte>)
    returns (r: Result<TestReport>)
    // `get_random_bytes(16)` and the IV AES.new draws
    requires |aesKey| == 16 && |iv| == IvSize
    // `get_random_bytes(32)` and the nonce ChaCha20.new draws
    requires |chachaKey| == 32 && |nonce| == ChaChaNonceSize
    // imported RSA keys have moduli well above 42 bytes
    requires ChunkSize(rsaPub) > 0 && rsaPri.sizeInBytes > 0
    // the checks run in order and the first that fails aborts the run with its exception
    ensures var aesBack := AesDecrypt(cbc, AesEncrypt(cbc, originalData, aesKey, iv), aesKey);
      aesBack != Ok(originalData) ==> r == Err(Failure(Aes, aesBack))
    ensures var aesBack := AesDecrypt(cbc, AesEncrypt(cbc, originalData, aesKey, iv), aesKey);
      var chachaBack := ChaChaDecrypt(stream, ChaChaEncrypt(stream, originalData, chachaKey, nonce), chachaKey);
      aesBack == Ok(originalData) && chachaBack != Ok(originalData) ==>
        r == Err(Failure(ChaCha20, chachaBack))
    ensures var aesBack := AesDecrypt(cbc, AesEncrypt(cbc, originalData, aesKey, iv), aesKey);
      var chachaBack := ChaChaDecrypt(stream, ChaChaEncrypt(stream, originalData, chachaKey, nonce), chachaKey);
      var rsaBack := RsaPlaintext(rsaPri, RsaCiphertext(rsaPub, originalData));
      aesBack == Ok(originalData) && chachaBack == Ok(originalData) && rsaBack != Ok(originalData) ==>
        r == Err(Failure(Rsa, rsaBack))
    // a report is produced only when all three round trips reproduce the data
    ensures r.Ok? <==>
      && AesDecrypt(cbc, AesEncrypt(cbc, originalData, aesKey, iv), aesKey) == Ok(originalData)
      && ChaChaDecrypt(stream, ChaChaEncrypt(stream, originalData, chachaKey, nonce), chachaKey) == Ok(originalData)
      && RsaPlaintext(rsaPri, RsaCiphertext(rsaPub, originalData)) == Ok(originalData)
    ensures r.Ok? ==> r.value == TestReport(
      |originalData|,
      AesEncrypt(cbc, originalData, aesKey, iv),
      ChaChaEncrypt(stream, originalData, chachaKey, nonce),
      RsaCiphertext(rsaPub, originalData))
    // with correct ciphers and a matching key pair, no check ever fails
    ensures ValidCbc(cbc) && ValidStream(stream) && ValidOaepPair(rsaPub, rsaPri) ==> r.Ok?
  {
    if ValidCbc(cbc) && ValidStream(stream) && ValidOaepPair(rsaPub, rsaPri) {
      AesRoundTrip(cbc, originalData, aesKey, iv);
      ChaChaRoundTrip(stream, originalData, chachaKey, nonce);
      RsaRoundTrip(rsaPub, rsaPri, originalData);
    }
    var fileSize := |originalData|;

    var aesOutput := AesEncrypt(cbc, originalData, aesKey, iv);
    var aesBack := AesDecrypt(cbc, aesOutput, aesKey);
    if aesBack != Ok(originalData) {
      return Err(Failure(Aes, aesBack));
    }

    var chachaOutput := ChaChaEncrypt(stream, originalData, chachaKey, nonce);
    var chachaBack := ChaChaDecrypt(stream, chachaOutput, chachaKey);
    if chachaBack != Ok(originalData) {
      return Err(Failure(ChaCha20, chachaBack));
    }

    var rsaOutput := RsaEncrypt(originalData, rsaPub);
    var rsaBack := RsaDecrypt(rsaOutput, rsaPri);
    if rsaBack != Ok(originalData) {
      return Err(Failure(Rsa, rsaBack));
    }

    r := Ok(TestReport(fileSize, aesOutput, chachaOutput, rsaOutput));
  }
}
