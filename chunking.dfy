/**
 * `chunks(lst, n)`: the slices `lst[index:index + n]` for `index` in
 * `range(0, len(lst), n)`. The model of `get_hash_from_url` feeds a
 * streamed body to the digest in these slices of 4096 bytes; its contracts
 * hold whatever the split (see DigestReader).
 */
module Chunking {
  import opened Base

  /** The pieces for a positive size `n`. */
  function ChunksOf<T>(lst: seq<T>, n: nat): seq<seq<T>>
    requires n > 0
    decreases |lst|
  {
    if lst == [] then []
    else if |lst| <= n then [lst]
    else [lst[..n]] + ChunksOf(lst[n..], n)
  }

  /**
   * `list(chunks(lst, n))`. `range` refuses a zero step with `ValueError`
   * and yields nothing for a negative step over `0 .. len(lst)`.
   */
  function Chunks<T>(lst: seq<T>, n: int): Result<seq<seq<T>>> {
    if n == 0 then Err(Raised("ValueError"))
    else if n < 0 then Ok([])
    else Ok(ChunksOf(lst, n))
  }

  /** Concatenating the pieces gives the list back. */
  lemma {:induction false} ChunksReassemble<T>(lst: seq<T>, n: nat)
    requires n > 0
    ensures Flatten(ChunksOf(lst, n)) == lst
    decreases |lst|
  {
    if lst != [] && |lst| > n {
      ChunksReassemble(lst[n..], n);
      assert ChunksOf(lst, n)[1..] == ChunksOf(lst[n..], n);
      assert lst == lst[..n] + lst[n..];
    }
  }

  /** There are `ceil(len / n)` pieces: just enough pieces of `n` to hold the list. */
  lemma {:induction false} ChunksCount<T>(lst: seq<T>, n: nat)
    requires n > 0
    ensures var k := |ChunksOf(lst, n)|; (k - 1) * n < |lst| <= k * n
    decreases |lst|
  {
    if lst != [] && |lst| > n {
      var k' := |ChunksOf(lst[n..], n)|;
      ChunksCount(lst[n..], n);
      assert |ChunksOf(lst, n)| == k' + 1;
      assert (k' + 1) * n == k' * n + n;
    }
  }

  /** Every piece holds `n` elements except the last, which holds between 1 and `n`. */
  lemma {:induction false} ChunksSizes<T>(lst: seq<T>, n: nat)
    requires n > 0
    ensures var r := ChunksOf(lst, n);
      && (forall i :: 0 <= i < |r| - 1 ==> |r[i]| == n)
      && (r != [] ==> 0 < |r[|r| - 1]| <= n)
    decreases |lst|
  {
    var r := ChunksOf(lst, n);
    if lst != [] && |lst| > n {
      var tail := ChunksOf(lst[n..], n);
      ChunksSizes(lst[n..], n);
      assert r == [lst[..n]] + tail;
      forall i | 0 <= i < |r| - 1 ensures |r[i]| == n {
        if i > 0 { assert r[i] == tail[i - 1]; }
      }
    }
  }

  /** Piece `k` is the slice `lst[k * n : k * n + n]`, clipped at the end of the list as Python slicing does. */
  lemma {:induction false} ChunkIsSlice<T>(lst: seq<T>, n: nat, k: nat)
    requires n > 0 && k < |ChunksOf(lst, n)|
    ensures k * n < |lst|
    ensures ChunksOf(lst, n)[k] == lst[k * n .. if k * n + n < |lst| then k * n + n else |lst|]
    decreases |lst|
  {
    if |lst| > n && k > 0 {
      var rest := lst[n..];
      assert ChunksOf(lst, n)[k] == ChunksOf(rest, n)[k - 1];
      ChunkIsSlice(rest, n, k - 1);
      assert (k - 1) * n + n == k * n;
      var lo := (k - 1) * n;
      assert rest[lo..] == lst[k * n..];
    }
  }

  /** `list(chunks(lst, n))` for every `n`: an error only for a zero size, no pieces for a negative one. */
  lemma ChunksOutcome<T>(lst: seq<T>, n: int)
    ensures n == 0 ==> Chunks(lst, n) == Err(Raised("ValueError"))
    ensures n < 0 ==> Chunks(lst, n) == Ok([])
    ensures n > 0 ==> Chunks(lst, n).Ok? && Flatten(Chunks(lst, n).value) == lst
  {
    if n > 0 {
      ChunksReassemble(lst, n);
    }
  }
}
