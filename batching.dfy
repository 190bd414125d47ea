/** The batched write used by two of the scripts: `while (updates.length)
    await table.updateRecordsAsync(updates.splice(0, 50))`. Each iteration
    removes the first (at most) fifty pending updates and sends them in one
    store call. `Chunks` is the list of calls such a drain issues. */
module Batching {

  /** The store's limit on records per update call. */
  const ChunkSize: nat := 50

  /** How many entries one `splice(0, ChunkSize)` removes from a list of length `n`. */
  function ChunkLength(n: nat): (k: nat)
    ensures n > 0 ==> 0 < k
    ensures k <= n && k <= ChunkSize
    ensures k == ChunkSize || k == n
  {
    if n < ChunkSize then n else ChunkSize
  }

  /** The write calls issued while draining `pending`, in order. */
  function Chunks<T>(pending: seq<T>): (calls: seq<seq<T>>)
    decreases |pending|
  {
    if |pending| == 0 then []
    else
      var k := ChunkLength(|pending|);
      [pending[..k]] + Chunks(pending[k..])
  }

  function Flatten<T>(calls: seq<seq<T>>): seq<T>
  {
    if calls == [] then [] else calls[0] + Flatten(calls[1..])
  }

  /** Sending the chunks one after another sends the whole list, once, in order. */
  lemma {:induction false} ChunksFlatten<T>(pending: seq<T>)
    ensures Flatten(Chunks(pending)) == pending
    decreases |pending|
  {
    if |pending| > 0 {
      var k := ChunkLength(|pending|);
      ChunksFlatten(pending[k..]);
      assert pending[..k] + pending[k..] == pending;
    }
  }

  /** ceil(N / 50) calls: none at all for an empty list. */
  lemma {:induction false} ChunksCount<T>(pending: seq<T>)
    ensures |Chunks(pending)| == (|pending| + ChunkSize - 1) / ChunkSize
    ensures |Chunks(pending)| == 0 <==> |pending| == 0
    decreases |pending|
  {
    if |pending| > 0 {
      var k := ChunkLength(|pending|);
      ChunksCount(pending[k..]);
    }
  }

  /** Call `i` carries exactly the entries at positions 50*i up to 50*i + 49 (or
      the end of the list): every call is a non-empty prefix of what is still
      pending, full except possibly the last. */
  lemma {:induction false} ChunkAt<T>(pending: seq<T>, i: nat)
    requires i < |Chunks(pending)|
    ensures i * ChunkSize < |pending|
    ensures Chunks(pending)[i] == pending[i * ChunkSize .. Min((i + 1) * ChunkSize, |pending|)]
    ensures 0 < |Chunks(pending)[i]| <= ChunkSize
    ensures i < |Chunks(pending)| - 1 ==> |Chunks(pending)[i]| == ChunkSize
    decreases i
  {
    var k := ChunkLength(|pending|);
    if i > 0 {
      ChunkAt(pending[k..], i - 1);
      assert k == ChunkSize;
      var lo, hi := (i - 1) * ChunkSize, Min(i * ChunkSize, |pending| - k);
      assert lo + k == i * ChunkSize;
      assert hi + k == Min((i + 1) * ChunkSize, |pending|);
      SliceShift(pending, k, lo, hi);
    } else if |Chunks(pending)| > 1 {
      assert |pending[k..]| > 0;
    }
  }

  /** A slice of a suffix is a slice of the whole, shifted. */
  lemma SliceShift<T>(s: seq<T>, k: nat, lo: nat, hi: nat)
    requires k <= |s| && lo <= hi <= |s| - k
    ensures s[k..][lo..hi] == s[lo + k..hi + k]
  {
  }

  function Min(a: int, b: int): int {
    if a < b then a else b
  }
}
