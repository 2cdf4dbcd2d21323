# Framing model of `crypto_compare.py`

`crypto_compare.py` benchmarks three ciphers on one input file: AES in CBC mode,
ChaCha20, and RSA with OAEP padding applied to the file in blocks. Each algorithm sits
behind an adapter that frames the ciphertext. `run_test` encrypts the file with each
adapter, decrypts it again and asserts that the original comes back.

This project models the adapters' byte-level framing and the round-trip checks of
`run_test`, and proves the properties that framing promises:

- AES: PKCS#7 padding (section 6.3 of RFC 5652, 16-byte block) and a 16-byte IV prefix.
  Unpadding as written, `decrypted[:-decrypted[-1]]`, follows Python's slicing rules.
- ChaCha20: an 8-byte nonce prefix.
- RSA: the plaintext is cut into blocks of `M - 42` bytes, where `M` is the modulus size
  in bytes and 42 is the OAEP overhead `2·hLen + 2` for SHA-1 (section 7.1.1 of RFC 8017).
  The OAEP blocks are joined with no delimiter and re-split at the private key's `M`.

The ciphers themselves belong to the cryptographic library. Each is a value of function
type (`Primitives.CbcCipher`, `Primitives.StreamCipher`, `Primitives.OaepCipher`). A
ghost predicate states the only facts the framing relies on:

- `ValidCbc`: CBC preserves length on whole blocks, and decryption inverts encryption.
- `ValidStream`: the stream cipher preserves length, and decryption inverts encryption.
- `ValidOaepPublic` / `ValidOaepPair`: a message of at most `M - 42` bytes encrypts to
  exactly `M` bytes, and a private key of the same size decrypts it back.

The properties are proved for every cipher that satisfies these predicates. The random
values a run draws (keys, IV, nonce) are parameters of the model.

Modules, one per part of the source:

- `Wrappers`: bytes, `Option`, `Result`, and the exceptions the code can raise.
- `PyBytes`: Python slicing `s[:i]`, `s[i:]`, `s[i:j]`, `s[i]`.
- `Padding`: the pad and unpad steps.
- `Primitives`: the abstract ciphers.
- `AesCbc` and `ChaCha`: the pure adapters.
- `Chunking`: the block policy of the RSA loops.
- `RsaOaep`: the loops as methods, each proved against a specification function.
- `CryptoCompare`: `run_test`.

The code's error paths are modelled as `Err` results, not as preconditions, except the block size of the two RSA loops (see "## Left out"). These are:

- a buffer shorter than the IV or the nonce;
- a CBC ciphertext that is not a whole number of blocks;
- `decrypted[-1]` on an empty buffer;
- an OAEP block of the wrong length, or one that fails its integrity check;
- a failed round-trip assert, which aborts the run.

Three behaviours of the code that a stricter program would handle differently:

- A private key of another size than the public key is not reported as a failure of its
  own; the code has no such check. The only failures are OAEP rejecting a block of the
  wrong length or one that fails its integrity check.
  `RsaOaep.RsaMisalignedRejected` shows when a size mismatch is certain to fail.
- A failed round trip is not returned as a result. The code uses `assert`, so it raises
  AssertionError, modelled as `RoundTripFailed`. Any exception raised inside a decrypt
  call propagates unchanged.
- The timings come from `time.time()`, a wall clock, not from a monotonic clock. Timing is
  not modelled.

## Model

| member | source | states |
|---|---|---|
| `PyBytes.Bound` | crypto_compare.py:36-43 | Python's normalisation of a slice bound: a negative bound counts from the end, then the bound is clamped to [0, len] |
| `PyBytes.Prefix` | crypto_compare.py:36-43 | `s[:i]`, as in `enc_data[:16]` and `decrypted[:-padding]`: the bytes before the normalised bound |
| `PyBytes.Suffix` | crypto_compare.py:37 | `s[i:]`, as in `enc_data[16:]` and `enc_data[8:]`: the bytes from the normalised bound on |
| `PyBytes.Slice` | crypto_compare.py:74 | `s[i:j]`, as in `data[i:i + block_size]`: the bytes between the two normalised bounds, empty when they cross |
| `PyBytes.Index` | crypto_compare.py:42 | `s[i]` for -len ≤ i < len, a negative index counting from the end, and None (IndexError) otherwise |
| `PyBytes.PrefixSuffix` | crypto_compare.py:36-37 | `s[:i] + s[i:] == s` for every integer `i`: the IV/nonce split loses and invents nothing |
| `PyBytes.SplitConcat` | crypto_compare.py:58-59 | splitting `a + b` at `len(a)` gives back `a` and `b` exactly |
| `Padding.PadLength` | crypto_compare.py:28 | the pad length is in [1, 16] and reaches a multiple of 16. A block-aligned length gets a full 16-byte pad. No smaller positive amount reaches a boundary |
| `Padding.Pad` | crypto_compare.py:28-29 | the padded length is a multiple of 16, above `len(data)` and at most `len(data) + 16`. The first `len(data)` bytes are the data. Every appended byte equals the pad length |
| `Padding.Unpad` | crypto_compare.py:42-43 | raises IndexError exactly on an empty buffer. Otherwise returns a prefix: it drops the last `p` bytes when 1 ≤ `p` ≤ len, and is empty when `p == 0` or `p > len` |
| `Padding.UnpadPad` | crypto_compare.py:28-43 | unpadding a padded buffer yields exactly the original data |
| `AesCbc.AesEncrypt` | crypto_compare.py:24-32 | the output starts with the 16-byte IV in clear. Its length and the split are in `AesFraming` |
| `AesCbc.AesDecrypt` | crypto_compare.py:35-43 | a successful decryption had a 16-byte IV and a whole number of 16-byte blocks. The exact failure cases are in `AesDecryptErrors` |
| `AesCbc.AesFraming` | crypto_compare.py:24-32 | the output is the IV followed by the CBC ciphertext, `16 + padded length` bytes long. Splitting at 16 recovers that IV and that ciphertext |
| `AesCbc.AesRoundTrip` | crypto_compare.py:24-43 | `aes_decrypt(aes_encrypt(d, k), k) == d` for every valid CBC cipher |
| `AesCbc.AesDecryptErrors` | crypto_compare.py:35-43 | decryption fails exactly on inputs shorter than 32 bytes or not a multiple of 16. The error is a bad IV length, then a misaligned ciphertext, then IndexError for an empty plaintext |
| `ChaCha.AcceptedNonceLength` | crypto_compare.py:60 | the nonce lengths `ChaCha20.new` accepts: 8 or 12 bytes for ChaCha20, 24 for XChaCha20 |
| `ChaCha.ChaChaEncrypt` | crypto_compare.py:50-54 | the output starts with the 8-byte nonce in clear. Its length and the split are in `ChaChaFraming` |
| `ChaCha.ChaChaDecrypt` | crypto_compare.py:57-61 | a successful decryption had at least 8 bytes and is the stream decryption of bytes 8 onward under the first 8 bytes as nonce. The failure case is in `ChaChaDecryptErrors` |
| `ChaCha.ChaChaFraming` | crypto_compare.py:50-54 | the output is the 8-byte nonce followed by the ciphertext, `8 + len(data)` bytes long. Splitting at 8 recovers both |
| `ChaCha.ChaChaRoundTrip` | crypto_compare.py:50-61 | `chacha20_decrypt(chacha20_encrypt(d, k), k) == d` for every valid stream cipher |
| `ChaCha.ChaChaDecryptErrors` | crypto_compare.py:57-61 | decryption fails, with a nonce-length error, exactly on inputs shorter than 8 bytes |
| `Chunking.Chunks` | crypto_compare.py:73-74 | the blocks the loop slices, `data[i:i+B]` for `i` in `range(0, N, B)`. Its contract is carried by `ChunksCount`, `ChunksShape`, `ChunkAt` and `FlattenChunks` |
| `Chunking.Flatten` | crypto_compare.py:77 | `b"".join(blocks)`. Its contract is carried by `FlattenChunks`, `FlattenUniformLength` and `ChunksOfFlatten` |
| `Chunking.ChunksCount` | crypto_compare.py:73-74 | the loop takes `ceil(N / B)` blocks (zero for empty data) |
| `Chunking.ChunksShape` | crypto_compare.py:73-74 | every block has 1 to `B` bytes, and every block except the last has exactly `B` |
| `Chunking.ChunkAt` | crypto_compare.py:73-74 | block `k` is `data[k·B : k·B + B]`, the slice taken on the loop's `k`-th pass |
| `Chunking.FlattenChunks` | crypto_compare.py:73-77 | the blocks, joined in order, are the data |
| `Chunking.FlattenUniformLength` | crypto_compare.py:77 | joining `n` blocks of `M` bytes gives `n·M` bytes |
| `Chunking.ChunksOfFlatten` | crypto_compare.py:85-86 | re-splitting at `M` a join of `M`-byte blocks recovers the blocks in order |
| `RsaOaep.DecryptBlock` | crypto_compare.py:87 | one OAEP decryption succeeds exactly when the block is `M` bytes and passes OAEP's check, and then yields OAEP's plaintext. A block of the wrong length fails with the length error |
| `RsaOaep.DecryptBlocks` | crypto_compare.py:85-87 | decrypts blocks in order and stops at the first failure. Its contract is carried by `DecryptBlocksPointwise` and `DecryptBlocksFirstError` |
| `RsaOaep.DecryptBlocksFirstError` | crypto_compare.py:85-87 | a failing decryption reports the error of a block `k` such that every block before `k` decrypts: the first block that fails |
| `RsaOaep.ChunkSize` | crypto_compare.py:70 | `size_in_bytes() - 42`, the most message bytes one OAEP block carries. `EncryptedBlocksUniform` shows every chunk fits within it |
| `RsaOaep.EncryptBlocks` | crypto_compare.py:73-75 | encrypts the blocks one by one, in order, giving as many ciphertexts as blocks. Block `k` of the result is the encryption of block `k`, by `EncryptBlocksPointwise` |
| `RsaOaep.EncryptBlocksPointwise` | crypto_compare.py:75 | block `k` of the output is the OAEP encryption of input block `k` |
| `RsaOaep.DecryptBlocksPointwise` | crypto_compare.py:85-87 | succeeds exactly when every block decrypts, and then yields each block's plaintext in order |
| `RsaOaep.RsaCiphertext` | crypto_compare.py:68-77 | the specification of `rsa_encrypt`: the join of the OAEP encryptions of the `M - 42`-byte chunks. Its contract is carried by `RsaCiphertextLength`, `RsaSplitRecoversBlocks` and `RsaRoundTrip` |
| `RsaOaep.RsaPlaintext` | crypto_compare.py:80-89 | the specification of `rsa_decrypt`: the join of the decryptions of the `M`-byte chunks, or the first block's error. Its contract is carried by `RsaRoundTrip`, `RsaMisalignedRejected` and `DecryptBlocksFirstError` |
| `RsaOaep.RsaEncrypt` | crypto_compare.py:68-77 | the loop's result is the join of the OAEP encryptions of the `M - 42`-byte chunks of the data |
| `RsaOaep.RsaDecrypt` | crypto_compare.py:80-89 | the loop's result is `RsaPlaintext`: the join of the decryptions of the `M`-byte chunks of the input, or, when a block fails, that block's error, which by `DecryptBlocksFirstError` is the error of the first block that fails |
| `RsaOaep.EncryptedBlocksUniform` | crypto_compare.py:70-75 | every chunk fits OAEP's message bound, so every encrypted block is exactly `M` bytes |
| `RsaOaep.RsaCiphertextLength` | crypto_compare.py:68-77 | the ciphertext is `ceil(N / (M - 42))·M` bytes long, and empty for empty data |
| `RsaOaep.RsaSplitRecoversBlocks` | crypto_compare.py:80-86 | with a private key of the same size, splitting the ciphertext at `M` recovers exactly the encrypted blocks in order |
| `RsaOaep.DecryptEncryptedBlocks` | crypto_compare.py:82-87 | a matching private key decrypts each encrypted block back to its chunk |
| `RsaOaep.RsaRoundTrip` | crypto_compare.py:68-89 | `rsa_decrypt(rsa_encrypt(d, pub), pri) == d` for a matching OAEP key pair |
| `RsaOaep.RsaMisalignedRejected` | crypto_compare.py:80-89 | a ciphertext whose length is not a multiple of the private key's size fails to decrypt instead of decoding silently |
| `CryptoCompare.Failure` | crypto_compare.py:111-126 | the exception a failing `assert decrypt(...) == original_data` raises: the decryption's own exception, or AssertionError. `RunTest`'s ensures state which one each check reports |
| `CryptoCompare.RunTest` | crypto_compare.py:96-130 | the three checks run in order, and the first failure aborts with its exception. It returns a report with the file size and the three ciphertexts exactly when all three round trips reproduce the data. With valid ciphers and a matching key pair it always succeeds |

## Left out

- `load_file` and `save_file` and their calls in `run_test`, which read and write files. The ciphertexts that `run_test` saves appear in its report instead.
- The `time.time()` readings and the elapsed times `run_test` records. These are wall-clock floating-point values, so the report carries no timings.
- The argparse `__main__` block and the JSON printing, which are command-line I/O.
- `benchmark_simple.py` and `criar_arquivos_teste.py`: subprocess calls, key generation, CSV and test-file writing, and floating-point ratios. None of this is part of the framing.
- The internals of AES, ChaCha20, RSA, PKCS1_OAEP and `get_random_bytes`. These are foreign library code. They appear only as function values, constrained by the predicates above; OAEP's internal random seed is folded into the encrypt function. So in the model two equal chunks, such as the full chunks of a file of one repeated byte, always get equal ciphertext blocks, whereas real OAEP gives each call a fresh seed. No proved property relies on equal blocks: they use only the length of each block and that it decrypts back to its chunk.
- The key-length checks of `AES.new` and `ChaCha20.new`. Keys are opaque to the model, and `run_test` always passes 16- and 32-byte keys.
- `RsaOaep.RsaEncrypt`: requires `M > 42`. With a smaller key, `range` with a step ≤ 0 would raise or yield nothing; real RSA keys are far larger.
- `RsaOaep.RsaDecrypt`: requires `M > 0`, since `range` raises ValueError on a zero step. The error is not modelled because an RSA key always has at least one byte.
- `CryptoCompare.RunTest`: requires `M > 42` for the public key and `M > 0` for the private key, for the two `range` steps above. The key pair comes from `RSA.generate` (benchmark_simple.py:21, 2048 bits by default), which refuses keys under 1024 bits, so `M` is at least 128 there.
- RSA decryption under a private key of another size but a length that happens to be a multiple of its size is not characterised. The abstract OAEP decrypt may or may not reject such blocks.
- Freshness of the IV and nonce across calls is a property of the random source, which is a parameter here.
