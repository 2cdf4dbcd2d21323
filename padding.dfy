/** The trailing-byte padding of `aes_encrypt` / `aes_decrypt`: the PKCS#7 scheme of
    section 6.3 of RFC 5652 with a 16-byte block, and Python's `x[:-x[-1]]` unpadding. */
module Padding {
  import opened Wrappers
  import opened PyBytes

  /** Size of an AES block, and so of a CBC initialisation vector, in bytes. */
  const BlockSize: nat := 16

  predicate OnBoundary(m: nat) {
    m % BlockSize == 0
  }

  /** `16 - len(data) % 16`: always between 1 and 16, and it brings the length to a
      multiple of 16; a length already on a block boundary gets a full block. */
  function PadLength(n: nat): (p: nat)
    ensures 1 <= p <= BlockSize
    ensures (n + p) % BlockSize == 0
    ensures n % BlockSize == 0 ==> p == BlockSize
    // the least such amount: `n + p` is the least multiple of 16 strictly above `n`
    ensures forall m | n < m < n + p :: !OnBoundary(m)
  {
    BlockSize - n % BlockSize
  }

  /** `data + bytes([padding]) * padding` */
  function Pad(data: seq<byte>): (r: seq<byte>)
    ensures |r| % BlockSize == 0
    ensures |data| < |r| <= |data| + BlockSize
    ensures |r| == |data| + PadLength(|data|)
    ensures r[..|data|] == data
    ensures forall i | |data| <= i < |r| :: r[i] == PadLength(|data|)
  {
    var p := PadLength(|data|);
    data + seq(p, _ => p as byte)
  }

  /** `decrypted[:-decrypted[-1]]`. It raises only on an empty buffer; on any other
      input it returns a prefix, dropping the last `p` bytes when `1 <= p <= len`, and
      returning the empty prefix when `p == 0` (`x[:-0]` is `x[:0]`) or `p > len`. */
  function Unpad(decrypted: seq<byte>): (r: Result<seq<byte>>)
    ensures r.Err? <==> |decrypted| == 0
    ensures r.Err? ==> r.error == IndexOutOfRange
    ensures r.Ok? ==> |r.value| < |decrypted| && r.value == decrypted[..|r.value|]
    ensures r.Ok? ==> var p := decrypted[|decrypted| - 1] as int;
      |r.value| == if 1 <= p <= |decrypted| then |decrypted| - p else 0
  {
    match Index(decrypted, -1)
    case None => Err(IndexOutOfRange)
    case Some(p) => Ok(Prefix(decrypted, -(p as int)))
  }

  /** Unpadding a padded buffer gives back exactly the original data. */
  lemma UnpadPad(data: seq<byte>)
    ensures Unpad(Pad(data)) == Ok(data)
  {
    var padded := Pad(data);
    assert padded[|padded| - 1] == PadLength(|data|);
    assert padded[..|data|] == data;
  }
}
