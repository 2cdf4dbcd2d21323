/** The cryptographic provider, seen only through its interface. The real AES-CBC,
    ChaCha20 and PKCS1_OAEP are foreign code; here each is a value holding its encrypt and
    decrypt functions, and a ghost predicate states the only facts the framing relies on. */
module Primitives {
  import opened Wrappers
  import Padding

  /** Key material is opaque to the adapters. */
  type Key = seq<byte>

  /** AES in CBC mode: (key, iv, data) to ciphertext and back. */
  datatype CbcCipher = CbcCipher(
    encrypt: (Key, seq<byte>, seq<byte>) -> seq<byte>,
    decrypt: (Key, seq<byte>, seq<byte>) -> seq<byte>)

  /** On block-aligned data and a 16-byte IV, CBC is length preserving both ways, and
      decrypting with the same key and IV undoes encryption. */
  ghost predicate ValidCbc(c: CbcCipher) {
    && (forall k, iv, x | |iv| == Padding.BlockSize && |x| % Padding.BlockSize == 0 ::
          |c.encrypt(k, iv, x)| == |x|)
    && (forall k, iv, y | |iv| == Padding.BlockSize && |y| % Padding.BlockSize == 0 ::
          |c.decrypt(k, iv, y)| == |y|)
    && (forall k, iv, x | |iv| == Padding.BlockSize && |x| % Padding.BlockSize == 0 ::
          c.decrypt(k, iv, c.encrypt(k, iv, x)) == x)
  }

  /** ChaCha20: (key, nonce, data) to ciphertext and back. */
  datatype StreamCipher = StreamCipher(
    encrypt: (Key, seq<byte>, seq<byte>) -> seq<byte>,
    decrypt: (Key, seq<byte>, seq<byte>) -> seq<byte>)

  /** Length of the nonce ChaCha20 generates when none is given. */
  const ChaChaNonceSize: nat := 8

  /** With the nonce it generates, the stream cipher is length preserving and
      decrypting with the same key and nonce undoes encryption. */
  ghost predicate ValidStream(c: StreamCipher) {
    forall k, nonce, x | |nonce| == ChaChaNonceSize ::
      |c.encrypt(k, nonce, x)| == |x| && c.decrypt(k, nonce, c.encrypt(k, nonce, x)) == x
  }

  /** SHA-1 digest length, the hash PKCS1_OAEP uses by default. */
  const HashLength: nat := 20

  /** The OAEP encoding overhead `2 * hLen + 2`: a block of a `k`-byte modulus carries at
      most `k - 42` bytes of message (section 7.1.1 of RFC 8017). */
  const OaepOverhead: nat := 2 * HashLength + 2

  /** A PKCS1_OAEP cipher over an RSA key whose modulus is `sizeInBytes` bytes long.
      Decryption of one block either yields a message or fails its integrity check. */
  datatype OaepCipher = OaepCipher(
    sizeInBytes: nat,
    encrypt: seq<byte> -> seq<byte>,
    decrypt: seq<byte> -> Option<seq<byte>>)

  /** Every message of at most `k - 42` bytes encrypts to exactly `k` bytes. */
  ghost predicate ValidOaepPublic(pub: OaepCipher) {
    forall m | |m| + OaepOverhead <= pub.sizeInBytes :: |pub.encrypt(m)| == pub.sizeInBytes
  }

  /** A matching key pair: the same modulus size, and the private key decrypts what the
      public key encrypted. */
  ghost predicate ValidOaepPair(pub: OaepCipher, pri: OaepCipher) {
    && pri.sizeInBytes == pub.sizeInBytes
    && ValidOaepPublic(pub)
    && (forall m | |m| + OaepOverhead <= pub.sizeInBytes :: pri.decrypt(pub.encrypt(m)) == Some(m))
  }
}
