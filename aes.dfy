/** `aes_encrypt` / `aes_decrypt`: PKCS#7 padding and the 16-byte IV prefix. */
module AesCbc {
  import opened Wrappers
  import opened PyBytes
  import opened Padding
  import opened Primitives

  const IvSize: nat := BlockSize

  /** `iv + cipher.encrypt(padded)`, with `iv` the IV the library drew for this call. */
  function AesEncrypt(cbc: CbcCipher, data: seq<byte>, key: Key, iv: seq<byte>): (r: seq<byte>)
    requires |iv| == IvSize
    ensures IvSize <= |r| && r[..IvSize] == iv
  {
    iv + cbc.encrypt(key, iv, Pad(data))
  }

  /** Split at 16, CBC-decrypt the rest under that IV, and strip the padding. */
  function AesDecrypt(cbc: CbcCipher, encData: seq<byte>, key: Key): (r: Result<seq<byte>>)
    ensures r.Ok? ==> IvSize <= |encData| && |encData| % BlockSize == 0
  {
    var iv := Prefix(encData, IvSize);
    var ciphertext := Suffix(encData, IvSize);
    if |iv| != IvSize then Err(IncorrectIvLength)
    else if |ciphertext| % BlockSize != 0 then Err(NotBlockAligned)
    else Unpad(cbc.decrypt(key, iv, ciphertext))
  }

  /** The output is the IV followed by a ciphertext as long as the padded data, and
      splitting it at 16 gives back that IV and that ciphertext. */
  lemma AesFraming(cbc: CbcCipher, data: seq<byte>, key: Key, iv: seq<byte>)
    requires ValidCbc(cbc) && |iv| == IvSize
    ensures var out := AesEncrypt(cbc, data, key, iv);
      && |out| == IvSize + |Pad(data)|
      && IvSize + |data| < |out| <= IvSize + |data| + BlockSize
      && Prefix(out, IvSize) == iv
      && Suffix(out, IvSize) == cbc.encrypt(key, iv, Pad(data))
  {
    SplitConcat(iv, cbc.encrypt(key, iv, Pad(data)));
  }

  /** `aes_decrypt(aes_encrypt(d, k), k) == d`. */
  lemma AesRoundTrip(cbc: CbcCipher, data: seq<byte>, key: Key, iv: seq<byte>)
    requires ValidCbc(cbc) && |iv| == IvSize
    ensures AesDecrypt(cbc, AesEncrypt(cbc, data, key, iv), key) == Ok(data)
  {
    AesFraming(cbc, data, key, iv);
    UnpadPad(data);
  }

  /** Decryption fails exactly on a buffer shorter than 32 bytes (no IV, or an IV and no
      block) or not a whole number of blocks, and with the library's error in each case. */
  lemma AesDecryptErrors(cbc: CbcCipher, encData: seq<byte>, key: Key)
    requires ValidCbc(cbc)
    ensures AesDecrypt(cbc, encData, key).Err? <==>
      |encData| < 2 * IvSize || |encData| % BlockSize != 0
    ensures |encData| < IvSize ==> AesDecrypt(cbc, encData, key) == Err(IncorrectIvLength)
    ensures IvSize <= |encData| && |encData| % BlockSize != 0 ==>
      AesDecrypt(cbc, encData, key) == Err(NotBlockAligned)
    ensures |encData| == IvSize ==> AesDecrypt(cbc, encData, key) == Err(IndexOutOfRange)
  {
    if |encData| >= IvSize {
      var iv, ciphertext := Prefix(encData, IvSize), Suffix(encData, IvSize);
      assert |ciphertext| == |encData| - IvSize;
      if |ciphertext| % BlockSize == 0 {
        assert |cbc.decrypt(key, iv, ciphertext)| == |ciphertext|;
      }
    }
  }
}
