/** The block policy of `rsa_encrypt` / `rsa_decrypt`: `data[i:i + n]` for `i` in
    `range(0, len(data), n)`, and `b"".join(blocks)`. */
module Chunking {
  import opened PyBytes

  /** `ceil(len / n)`, the number of values `range(0, len, n)` yields. */
  function NumChunks(len: nat, n: nat): nat
    requires n > 0
  {
    (len + n - 1) / n
  }

  /** The successive slices `s[i:i + n]` for `i` in `range(0, len(s), n)`, read from the front. */
  function Chunks<T>(s: seq<T>, n: nat): seq<seq<T>>
    requires n > 0
    decreases |s|
  {
    if |s| == 0 then [] else [Prefix(s, n)] + Chunks(Suffix(s, n), n)
  }

  /** `b"".join(blocks)` */
  function Flatten<T>(blocks: seq<seq<T>>): seq<T>
  {
    if |blocks| == 0 then [] else blocks[0] + Flatten(blocks[1..])
  }

  lemma MulAtLeast(d: int, n: int)
    requires d >= 1 && n > 0
    ensures d * n >= n
  {
  }

  lemma MulDistrib(a: int, b: int, n: int)
    ensures (a - b) * n == a * n - b * n
  {
  }

  /** Euclidean division is determined by quotient and remainder. */
  lemma DivUnique(x: int, n: int, q: int, r: int)
    requires n > 0 && 0 <= r < n && x == q * n + r
    ensures x / n == q
  {
    var q', r' := x / n, x % n;
    assert x == q' * n + r';
    MulDistrib(q, q', n);
    if q' < q {
      MulAtLeast(q - q', n);
      assert false;
    } else if q < q' {
      MulAtLeast(q' - q, n);
      assert false;
    }
  }

  lemma DivStep(a: nat, n: nat)
    requires n > 0
    ensures (a + n) / n == a / n + 1
  {
    DivUnique(a + n, n, a / n + 1, a % n);
  }

  lemma ModStep(a: nat, n: nat)
    requires n > 0
    ensures (a + n) % n == a % n
  {
    DivStep(a, n);
  }

  /** There are `ceil(len(s) / n)` chunks. */
  lemma {:induction false} ChunksCount<T>(s: seq<T>, n: nat)
    requires n > 0
    ensures |Chunks(s, n)| == NumChunks(|s|, n)
  {
    var len := |s|;
    if len == 0 {
      DivUnique(n - 1, n, 0, n - 1);
    } else {
      var rest := Suffix(s, n);
      var c := Chunks(s, n);
      assert |c| == 1 + |Chunks(rest, n)|;
      if len <= n {
        assert |rest| == 0;
        DivUnique(len + n - 1, n, 1, len - 1);
      } else {
        assert |rest| == len - n;
        ChunksCount(rest, n);
        DivStep(len - 1, n);
      }
    }
  }

  /** Every chunk is non-empty and holds at most `n` elements, and every chunk but the
      last holds exactly `n`. */
  lemma {:induction false} ChunksShape<T>(s: seq<T>, n: nat)
    requires n > 0
    ensures forall k | 0 <= k < |Chunks(s, n)| :: 1 <= |Chunks(s, n)[k]| <= n
    ensures forall k | 0 <= k < |Chunks(s, n)| - 1 :: |Chunks(s, n)[k]| == n
  {
    if |s| > 0 {
      ChunksShape(Suffix(s, n), n);
      var c := Chunks(s, n);
      assert c[1..] == Chunks(Suffix(s, n), n);
      forall k | 1 <= k < |c| ensures 1 <= |c[k]| <= n && (k < |c| - 1 ==> |c[k]| == n) {
        assert c[k] == c[1..][k - 1];
      }
      if |c| > 1 {
        assert |Suffix(s, n)| > 0;
      }
    }
  }

  /** The chunks joined back together, in order, are the input. */
  lemma {:induction false} FlattenChunks<T>(s: seq<T>, n: nat)
    requires n > 0
    ensures Flatten(Chunks(s, n)) == s
  {
    if |s| > 0 {
      var c := Chunks(s, n);
      assert c[1..] == Chunks(Suffix(s, n), n);
      FlattenChunks(Suffix(s, n), n);
      PrefixSuffix(s, n);
    }
  }

  /** Joining blocks of exactly `m` elements gives `|blocks| * m` elements. */
  lemma {:induction false} FlattenUniformLength<T>(blocks: seq<seq<T>>, m: nat)
    requires forall k | 0 <= k < |blocks| :: |blocks[k]| == m
    ensures |Flatten(blocks)| == |blocks| * m
  {
    if |blocks| > 0 {
      FlattenUniformLength(blocks[1..], m);
      assert |blocks| * m == (|blocks| - 1) * m + m;
    }
  }

  /** Re-splitting at `m` a join of blocks of exactly `m` elements recovers the blocks. */
  lemma {:induction false} ChunksOfFlatten<T>(blocks: seq<seq<T>>, m: nat)
    requires m > 0
    requires forall k | 0 <= k < |blocks| :: |blocks[k]| == m
    ensures Chunks(Flatten(blocks), m) == blocks
  {
    if |blocks| > 0 {
      var s := Flatten(blocks);
      SplitConcat(blocks[0], Flatten(blocks[1..]));
      ChunksOfFlatten(blocks[1..], m);
      assert blocks == [blocks[0]] + blocks[1..];
    }
  }

  lemma SliceShift<T>(s: seq<T>, n: nat, a: nat, len: nat)
    requires n <= |s| && n <= a
    ensures Slice(Suffix(s, n), a - n, a - n + len) == Slice(s, a, a + len)
  {
  }

  /** Chunk `k` is `s[i:i + n]` for `i == k * n`: the slice the loop takes on its `k`-th pass. */
  lemma {:induction false} ChunkAt<T>(s: seq<T>, n: nat, k: nat, i: nat)
    requires n > 0 && k < |Chunks(s, n)| && i == k * n
    ensures Chunks(s, n)[k] == Slice(s, i, i + n)
  {
    if k == 0 {
      assert Chunks(s, n)[0] == Prefix(s, n);
    } else {
      var rest := Suffix(s, n);
      assert Chunks(s, n)[k] == Chunks(rest, n)[k - 1];
      assert |rest| > 0;
      MulAtLeast(k, n);
      MulDistrib(k, 1, n);
      ChunkAt(rest, n, k - 1, i - n);
      SliceShift(s, n, i, n);
    }
  }

  /** One loop step: what remains to be chunked from offset `i` is the slice at `i`
      followed by what remains from `i + n`. */
  lemma ChunksStep<T>(s: seq<T>, n: nat, i: nat)
    requires n > 0 && i < |s|
    ensures Chunks(Suffix(s, i), n) == [Slice(s, i, i + n)] + Chunks(Suffix(s, i + n), n)
  {
    SliceOfSuffix(s, i, n);
    SuffixOfSuffix(s, i, n);
  }
}
