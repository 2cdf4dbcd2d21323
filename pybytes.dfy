/** Python slice semantics on sequences: `s[:stop]`, `s[start:]`, `s[start:stop]`, `s[i]`. */
module PyBytes {
  import opened Wrappers

  /** How Python normalises a slice bound for a sequence of length `len`
      (negative bounds count from the end; bounds are clamped to [0, len]). */
  function Bound(i: int, len: nat): (b: nat)
    ensures b <= len
  {
    if i < 0 then (if i + len < 0 then 0 else i + len)
    else if i > len then len
    else i
  }

  /** `s[:stop]` */
  function Prefix<T>(s: seq<T>, stop: int): seq<T>
  {
    s[..Bound(stop, |s|)]
  }

  /** `s[start:]` */
  function Suffix<T>(s: seq<T>, start: int): seq<T>
  {
    s[Bound(start, |s|)..]
  }

  /** `s[start:stop]` */
  function Slice<T>(s: seq<T>, start: int, stop: int): seq<T>
  {
    var a, b := Bound(start, |s|), Bound(stop, |s|);
    if a < b then s[a..b] else []
  }

  /** `s[i]`, which raises IndexError when `i` is outside [-len, len). */
  function Index<T>(s: seq<T>, i: int): Option<T>
  {
    if 0 <= i < |s| then Some(s[i])
    else if -|s| <= i < 0 then Some(s[|s| + i])
    else None
  }

  /** `s[:i] + s[i:] == s` for every integer `i`. */
  lemma PrefixSuffix<T>(s: seq<T>, i: int)
    ensures Prefix(s, i) + Suffix(s, i) == s
  {
    var b := Bound(i, |s|);
    assert s[..b] + s[b..] == s;
  }

  /** Splitting a concatenation at the length of its first part gives back both parts. */
  lemma SplitConcat<T>(a: seq<T>, b: seq<T>)
    ensures Prefix(a + b, |a|) == a
    ensures Suffix(a + b, |a|) == b
  {
    assert (a + b)[..|a|] == a;
    assert (a + b)[|a|..] == b;
  }

  /** `s[i:i+n]` is the first `n` elements of `s[i:]` (for non-negative `i`, `n`). */
  lemma SliceOfSuffix<T>(s: seq<T>, i: nat, n: nat)
    ensures Slice(s, i, i + n) == Prefix(Suffix(s, i), n)
  {
  }

  /** Dropping `i` and then `n` elements drops `i + n` (for non-negative `i`, `n`). */
  lemma SuffixOfSuffix<T>(s: seq<T>, i: nat, n: nat)
    ensures Suffix(Suffix(s, i), n) == Suffix(s, i + n)
  {
  }
}
