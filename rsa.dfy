/** `rsa_encrypt` / `rsa_decrypt`: PKCS1_OAEP over successive blocks, joined with no
    delimiter, and re-split at the private key's modulus size. */
module RsaOaep {
  import opened Wrappers
  import opened PyBytes
  import opened Primitives
  import opened Chunking

  /** `public_key.size_in_bytes() - 42`, the most message bytes one OAEP block carries. */
  function ChunkSize(pub: OaepCipher): int {
    pub.sizeInBytes - OaepOverhead
  }

  /** `cipher.encrypt(block)` for each block, in order. */
  function EncryptBlocks(pub: OaepCipher, blocks: seq<seq<byte>>): (r: seq<seq<byte>>)
    ensures |r| == |blocks|
  {
    if |blocks| == 0 then [] else [pub.encrypt(blocks[0])] + EncryptBlocks(pub, blocks[1..])
  }

  /** Block `k` of the output is the encryption of block `k` of the input. */
  lemma {:induction false} EncryptBlocksPointwise(pub: OaepCipher, blocks: seq<seq<byte>>)
    ensures forall k | 0 <= k < |blocks| :: EncryptBlocks(pub, blocks)[k] == pub.encrypt(blocks[k])
  {
    if |blocks| > 0 {
      EncryptBlocksPointwise(pub, blocks[1..]);
      forall k | 1 <= k < |blocks| ensures EncryptBlocks(pub, blocks)[k] == pub.encrypt(blocks[k]) {
        assert EncryptBlocks(pub, blocks)[k] == EncryptBlocks(pub, blocks[1..])[k - 1];
        assert blocks[1..][k - 1] == blocks[k];
      }
    }
  }

  /** The ciphertext `rsa_encrypt` returns, stated on the chunking of the data. */
  function RsaCiphertext(pub: OaepCipher, data: seq<byte>): seq<byte>
    requires ChunkSize(pub) > 0
  {
    Flatten(EncryptBlocks(pub, Chunks(data, ChunkSize(pub))))
  }

  /** PKCS1_OAEP decryption of one block: a block whose length is not the key size, or
      whose OAEP encoding does not check, raises ValueError. */
  function DecryptBlock(pri: OaepCipher, block: seq<byte>): (r: Result<seq<byte>>)
    ensures r.Ok? <==> |block| == pri.sizeInBytes && pri.decrypt(block).Some?
    ensures r.Ok? ==> r.value == pri.decrypt(block).value
    ensures |block| != pri.sizeInBytes ==> r == Err(IncorrectCiphertextLength)
  {
    if |block| != pri.sizeInBytes then Err(IncorrectCiphertextLength)
    else match pri.decrypt(block)
      case Some(m) => Ok(m)
      case None => Err(IncorrectDecryption)
  }

  /** Decrypts blocks in order, stopping at the first that raises. */
  function DecryptBlocks(pri: OaepCipher, blocks: seq<seq<byte>>): Result<seq<seq<byte>>>
  {
    if |blocks| == 0 then Ok([])
    else match DecryptBlock(pri, blocks[0])
      case Err(e) => Err(e)
      case Ok(m) =>
        match DecryptBlocks(pri, blocks[1..])
        case Err(e) => Err(e)
        case Ok(ms) => Ok([m] + ms)
  }

  /** A failing decryption reports the error of the first block that fails: every
      block before it decrypts. */
  lemma {:induction false} DecryptBlocksFirstError(pri: OaepCipher, blocks: seq<seq<byte>>)
    ensures DecryptBlocks(pri, blocks).Err? ==>
      exists k | 0 <= k < |blocks| ::
        && DecryptBlock(pri, blocks[k]).Err?
        && (forall j | 0 <= j < k :: DecryptBlock(pri, blocks[j]).Ok?)
        && DecryptBlocks(pri, blocks).error == DecryptBlock(pri, blocks[k]).error
  {
    if |blocks| > 0 && DecryptBlocks(pri, blocks).Err? {
      if DecryptBlock(pri, blocks[0]).Err? {
        assert DecryptBlocks(pri, blocks).error == DecryptBlock(pri, blocks[0]).error;
      } else {
        var rest := blocks[1..];
        DecryptBlocksFirstError(pri, rest);
        var k' :| 0 <= k' < |rest| && DecryptBlock(pri, rest[k']).Err?
          && (forall j | 0 <= j < k' :: DecryptBlock(pri, rest[j]).Ok?)
          && DecryptBlocks(pri, rest).error == DecryptBlock(pri, rest[k']).error;
        assert rest[k'] == blocks[k' + 1];
        forall j | 0 <= j < k' + 1
          ensures DecryptBlock(pri, blocks[j]).Ok?
        {
          if j > 0 { assert blocks[j] == rest[j - 1]; }
        }
      }
    }
  }

  /** Decryption succeeds exactly when every block decrypts, and then yields each
      block's plaintext, in order. */
  lemma {:induction false} DecryptBlocksPointwise(pri: OaepCipher, blocks: seq<seq<byte>>)
    ensures DecryptBlocks(pri, blocks).Ok? <==>
      forall k | 0 <= k < |blocks| :: DecryptBlock(pri, blocks[k]).Ok?
    ensures DecryptBlocks(pri, blocks).Ok? ==> |DecryptBlocks(pri, blocks).value| == |blocks|
    ensures DecryptBlocks(pri, blocks).Ok? ==> forall k | 0 <= k < |blocks| ::
      DecryptBlocks(pri, blocks).value[k] == DecryptBlock(pri, blocks[k]).value
  {
    if |blocks| > 0 {
      var tail := blocks[1..];
      DecryptBlocksPointwise(pri, tail);
      forall k | 1 <= k < |blocks| ensures blocks[k] == tail[k - 1] { }
    }
  }

  /** `done + rest` when `rest` succeeded; the error otherwise. */
  function Prepend(done: seq<seq<byte>>, rest: Result<seq<seq<byte>>>): Result<seq<seq<byte>>>
  {
    match rest
    case Ok(ms) => Ok(done + ms)
    case Err(e) => Err(e)
  }

  lemma AppendAssoc<T>(done: seq<T>, x: T, rest: seq<T>)
    ensures done + ([x] + rest) == (done + [x]) + rest
  {
  }

  lemma EncryptBlocksAppend(pub: OaepCipher, done: seq<seq<byte>>, block: seq<byte>)
    ensures EncryptBlocks(pub, done + [block]) == EncryptBlocks(pub, done) + [pub.encrypt(block)]
  {
    EncryptBlocksPointwise(pub, done + [block]);
    EncryptBlocksPointwise(pub, done);
  }

  /** Decrypting `[block] + rest` is decrypting `block`, then `rest`. */
  lemma DecryptBlocksCons(pri: OaepCipher, block: seq<byte>, rest: seq<seq<byte>>)
    ensures DecryptBlock(pri, block).Err? ==>
      DecryptBlocks(pri, [block] + rest) == Err(DecryptBlock(pri, block).error)
    ensures DecryptBlock(pri, block).Ok? ==>
      DecryptBlocks(pri, [block] + rest) == Prepend([DecryptBlock(pri, block).value], DecryptBlocks(pri, rest))
  {
    assert ([block] + rest)[1..] == rest;
  }

  lemma PrependStep(done: seq<seq<byte>>, m: seq<byte>, rest: Result<seq<seq<byte>>>)
    ensures Prepend(done, Prepend([m], rest)) == Prepend(done + [m], rest)
  {
    if rest.Ok? {
      assert done + ([m] + rest.value) == (done + [m]) + rest.value;
    }
  }

  lemma PrependEmpty(rest: Result<seq<seq<byte>>>)
    ensures Prepend([], rest) == rest
  {
    if rest.Ok? {
      assert [] + rest.value == rest.value;
    }
  }

  /** One pass of the `rsa_decrypt` loop at offset `i`: a failing block decides the
      outcome, and a good block moves from what remains to what is done. */
  lemma DecryptLoopStep(pri: OaepCipher, encData: seq<byte>, i: nat, done: seq<seq<byte>>)
    requires pri.sizeInBytes > 0 && i < |encData|
    ensures var m := pri.sizeInBytes;
      var block := Slice(encData, i, i + m);
      var here := Prepend(done, DecryptBlocks(pri, Chunks(Suffix(encData, i), m)));
      && (DecryptBlock(pri, block).Err? ==> here == Err(DecryptBlock(pri, block).error))
      && (DecryptBlock(pri, block).Ok? ==>
            here == Prepend(done + [DecryptBlock(pri, block).value],
                            DecryptBlocks(pri, Chunks(Suffix(encData, i + m), m))))
  {
    var m := pri.sizeInBytes;
    var block := Slice(encData, i, i + m);
    var rest := Chunks(Suffix(encData, i + m), m);
    ChunksStep(encData, m, i);
    DecryptBlocksCons(pri, block, rest);
    if DecryptBlock(pri, block).Ok? {
      PrependStep(done, DecryptBlock(pri, block).value, DecryptBlocks(pri, rest));
    }
  }

  /** What `rsa_decrypt` returns or raises, stated on the chunking of the ciphertext. */
  function RsaPlaintext(pri: OaepCipher, encData: seq<byte>): Result<seq<byte>>
    requires pri.sizeInBytes > 0
  {
    match DecryptBlocks(pri, Chunks(encData, pri.sizeInBytes))
    case Ok(ms) => Ok(Flatten(ms))
    case Err(e) => Err(e)
  }

  /** `rsa_encrypt`: one OAEP encryption per `block_size` bytes, then a join. */
  method RsaEncrypt(data: seq<byte>, pub: OaepCipher) returns (encrypted: seq<byte>)
    requires ChunkSize(pub) > 0
    ensures encrypted == RsaCiphertext(pub, data)
  {
    var blockSize := ChunkSize(pub);
    var encryptedBlocks: seq<seq<byte>> := [];
    ghost var done: seq<seq<byte>> := [];
    var i := 0;
    assert Suffix(data, 0) == data;
    while i < |data|
      invariant 0 <= i
      invariant done + Chunks(Suffix(data, i), blockSize) == Chunks(data, blockSize)
      invariant encryptedBlocks == EncryptBlocks(pub, done)
      decreases |data| - i
    {
      var block := Slice(data, i, i + blockSize);
      ChunksStep(data, blockSize, i);
      AppendAssoc(done, block, Chunks(Suffix(data, i + blockSize), blockSize));
      EncryptBlocksAppend(pub, done, block);
      encryptedBlocks := encryptedBlocks + [pub.encrypt(block)];
      done := done + [block];
      i := i + blockSize;
    }
    assert |Suffix(data, i)| == 0;
    assert Chunks(Suffix(data, i), blockSize) == [];
    assert done == Chunks(data, blockSize);
    assert encryptedBlocks == EncryptBlocks(pub, Chunks(data, ChunkSize(pub)));
    encrypted := Flatten(encryptedBlocks);
  }

  /** `rsa_decrypt`: one OAEP decryption per `size_in_bytes()` bytes, then a join; the
      first block that fails to decrypt raises. */
  method RsaDecrypt(encData: seq<byte>, pri: OaepCipher) returns (r: Result<seq<byte>>)
    requires pri.sizeInBytes > 0
    ensures r == RsaPlaintext(pri, encData)
  {
    var blockSize := pri.sizeInBytes;
    var decryptedBlocks: seq<seq<byte>> := [];
    var i := 0;
    assert Suffix(encData, 0) == encData;
    PrependEmpty(DecryptBlocks(pri, Chunks(encData, blockSize)));
    while i < |encData|
      invariant 0 <= i
      invariant Prepend(decryptedBlocks, DecryptBlocks(pri, Chunks(Suffix(encData, i), blockSize)))
             == DecryptBlocks(pri, Chunks(encData, blockSize))
      decreases |encData| - i
    {
      var block := Slice(encData, i, i + blockSize);
      DecryptLoopStep(pri, encData, i, decryptedBlocks);
      var m := DecryptBlock(pri, block);
      if m.Err? {
        return Err(m.error);
      }
      decryptedBlocks := decryptedBlocks + [m.value];
      i := i + blockSize;
    }
    assert |Suffix(encData, i)| == 0;
    assert Chunks(Suffix(encData, i), blockSize) == [];
    assert decryptedBlocks + [] == decryptedBlocks;
    r := Ok(Flatten(decryptedBlocks));
  }

  /** Every chunk of the data is short enough for OAEP, so each encrypts to `M` bytes. */
  lemma EncryptedBlocksUniform(pub: OaepCipher, data: seq<byte>)
    requires ChunkSize(pub) > 0 && ValidOaepPublic(pub)
    ensures forall k | 0 <= k < |Chunks(data, ChunkSize(pub))| ::
      |EncryptBlocks(pub, Chunks(data, ChunkSize(pub)))[k]| == pub.sizeInBytes
  {
    ChunksShape(data, ChunkSize(pub));
    EncryptBlocksPointwise(pub, Chunks(data, ChunkSize(pub)));
  }

  /** The ciphertext is `ceil(N / (M - 42)) * M` bytes long; empty data gives an empty
      ciphertext. */
  lemma RsaCiphertextLength(pub: OaepCipher, data: seq<byte>)
    requires ChunkSize(pub) > 0 && ValidOaepPublic(pub)
    ensures |RsaCiphertext(pub, data)| == NumChunks(|data|, ChunkSize(pub)) * pub.sizeInBytes
    ensures |data| == 0 ==> RsaCiphertext(pub, data) == []
  {
    EncryptedBlocksUniform(pub, data);
    FlattenUniformLength(EncryptBlocks(pub, Chunks(data, ChunkSize(pub))), pub.sizeInBytes);
    ChunksCount(data, ChunkSize(pub));
  }

  /** With a private key of the same size, splitting the ciphertext at `M` recovers
      exactly the encrypted blocks, in order. */
  lemma RsaSplitRecoversBlocks(pub: OaepCipher, pri: OaepCipher, data: seq<byte>)
    requires ChunkSize(pub) > 0 && ValidOaepPublic(pub) && pri.sizeInBytes == pub.sizeInBytes
    ensures Chunks(RsaCiphertext(pub, data), pri.sizeInBytes)
         == EncryptBlocks(pub, Chunks(data, ChunkSize(pub)))
  {
    EncryptedBlocksUniform(pub, data);
    ChunksOfFlatten(EncryptBlocks(pub, Chunks(data, ChunkSize(pub))), pri.sizeInBytes);
  }

  /** A matching private key decrypts every encrypted chunk back to that chunk. */
  lemma DecryptEncryptedBlocks(pub: OaepCipher, pri: OaepCipher, data: seq<byte>)
    requires ChunkSize(pub) > 0 && ValidOaepPair(pub, pri)
    ensures var chunks := Chunks(data, ChunkSize(pub));
      DecryptBlocks(pri, EncryptBlocks(pub, chunks)) == Ok(chunks)
  {
    var chunks := Chunks(data, ChunkSize(pub));
    var blocks := EncryptBlocks(pub, chunks);
    EncryptedBlocksUniform(pub, data);
    ChunksShape(data, ChunkSize(pub));
    EncryptBlocksPointwise(pub, chunks);
    DecryptBlocksPointwise(pri, blocks);
    forall k | 0 <= k < |blocks| ensures DecryptBlock(pri, blocks[k]) == Ok(chunks[k]) {
      assert |chunks[k]| + OaepOverhead <= pub.sizeInBytes;
    }
    var r := DecryptBlocks(pri, blocks);
    assert r.value == chunks;
  }

  /** `rsa_decrypt(rsa_encrypt(d, pub), pri) == d` for a matching key pair. */
  lemma RsaRoundTrip(pub: OaepCipher, pri: OaepCipher, data: seq<byte>)
    requires ChunkSize(pub) > 0 && ValidOaepPair(pub, pri)
    ensures RsaPlaintext(pri, RsaCiphertext(pub, data)) == Ok(data)
  {
    RsaSplitRecoversBlocks(pub, pri, data);
    DecryptEncryptedBlocks(pub, pri, data);
    FlattenChunks(data, ChunkSize(pub));
  }

  /** A ciphertext whose length is not a multiple of the private key's size (for instance
      one made under a public key of another size) is rejected, never silently decoded:
      its last block has the wrong length. */
  lemma {:induction false} RsaMisalignedRejected(pri: OaepCipher, encData: seq<byte>)
    requires pri.sizeInBytes > 0 && |encData| % pri.sizeInBytes != 0
    ensures RsaPlaintext(pri, encData).Err?
  {
    MisalignedBlocksRejected(pri, encData);
  }

  lemma {:induction false} MisalignedBlocksRejected(pri: OaepCipher, encData: seq<byte>)
    requires pri.sizeInBytes > 0 && |encData| % pri.sizeInBytes != 0
    ensures DecryptBlocks(pri, Chunks(encData, pri.sizeInBytes)).Err?
  {
    var m := pri.sizeInBytes;
    var chunks := Chunks(encData, m);
    var rest := Suffix(encData, m);
    DecryptBlocksPointwise(pri, chunks);
    if |encData| < m {
      assert chunks[0] == encData;
      assert DecryptBlock(pri, chunks[0]).Err?;
    } else {
      assert |rest| == |encData| - m;
      ModStep(|rest|, m);
      MisalignedBlocksRejected(pri, rest);
      DecryptBlocksPointwise(pri, Chunks(rest, m));
      var k :| 0 <= k < |Chunks(rest, m)| && DecryptBlock(pri, Chunks(rest, m)[k]).Err?;
      assert chunks[k + 1] == Chunks(rest, m)[k];
    }
  }
}
