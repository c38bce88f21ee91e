/** Bytes, chunked streams and the two ways the runner cuts them. */
module ByteStreams {

  type Byte = b: int | 0 <= b < 256

  type Bytes = seq<Byte>

  /** The stream a list of chunks carries. */
  function Flatten(chunks: seq<Bytes>): Bytes {
    if chunks == [] then [] else chunks[0] + Flatten(chunks[1..])
  }

  /** The first `n` elements, or all of them: Python's `s[:n]` for a non-negative `n`. */
  function Prefix<T>(s: seq<T>, n: nat): (p: seq<T>)
    ensures p <= s && |p| == if |s| <= n then |s| else n
  {
    if |s| <= n then s else s[..n]
  }

  /** What a file positioned at `from` returns for `read(size)`; a negative size reads to the end. */
  function Window<T>(s: seq<T>, from: nat, size: int): (w: seq<T>)
    requires from <= |s|
    ensures |w| == if 0 <= size < |s| - from then size else |s| - from
  {
    if size < 0 then s[from..] else Prefix(s[from..], size)
  }

  lemma {:induction false} FlattenSplit(chunks: seq<Bytes>, k: nat)
    requires k <= |chunks|
    ensures Flatten(chunks) == Flatten(chunks[..k]) + Flatten(chunks[k..])
  {
    if k == 0 {
      assert chunks[0..] == chunks;
    } else {
      FlattenSplit(chunks[1..], k - 1);
      assert chunks[..k][1..] == chunks[1..][..k - 1];
      assert chunks[1..][k - 1..] == chunks[k..];
    }
  }

  lemma FlattenNext(chunks: seq<Bytes>, k: nat)
    requires k < |chunks|
    ensures Flatten(chunks[..k + 1]) == Flatten(chunks[..k]) + chunks[k]
  {
    var upto := chunks[..k + 1];
    FlattenSplit(upto, k);
    assert upto[..k] == chunks[..k];
    assert upto[k..] == [chunks[k]];
    assert Flatten([chunks[k]]) == chunks[k] + Flatten([]);
  }
}
