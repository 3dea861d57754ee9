/** Fixed-size chunking: the splitter's batches and the chunk-of-100 loops that the adder
    and the deduplicator run before each remote call. */
module Batching {

  /** The remote API's limit on items per add or remove call. */
  const ApiChunkSize: nat := 100

  function Min(a: int, b: int): int { if a <= b then a else b }

  function Flatten<T>(xss: seq<seq<T>>): seq<T>
  {
    if |xss| == 0 then [] else xss[0] + Flatten(xss[1..])
  }

  lemma {:induction false} FlattenAppend<T>(xss: seq<seq<T>>, ys: seq<T>)
    ensures Flatten(xss + [ys]) == Flatten(xss) + ys
  {
    if |xss| > 0 {
      assert (xss + [ys])[1..] == xss[1..] + [ys];
      FlattenAppend(xss[1..], ys);
    }
  }

  /** Chunk `k` of the Python comprehension `[xs[i:i + size] for i in range(0, len(xs), size)]`. */
  function ChunkAt<T>(xs: seq<T>, size: nat, k: nat): seq<T>
    requires size > 0 && k * size < |xs|
  {
    xs[k * size..Min((k + 1) * size, |xs|)]
  }

  /** Number of chunks of the comprehension: `len(range(0, n, size))`. */
  function ChunkCount(n: nat, size: nat): nat
    requires size > 0
    decreases n
  {
    if n == 0 then 0 else if n <= size then 1 else 1 + ChunkCount(n - size, size)
  }

  lemma MulStep(k: nat, size: nat)
    ensures (k + 1) * size == k * size + size
  {
  }

  /** Chunk `k` exists exactly when its start offset `k * size` lies inside the input. */
  lemma {:induction false} ChunkCountBound(n: nat, size: nat, k: nat)
    requires size > 0
    ensures k < ChunkCount(n, size) <==> k * size < n
    decreases n
  {
    if k > 0 {
      MulStep(k - 1, size);
      if n > size {
        ChunkCountBound(n - size, size, k - 1);
      }
    }
  }

  /** The number of chunks is ceil(n / size): enough chunks to cover `n` items, and one
      fewer would not be. */
  lemma ChunkCountIsCeiling(n: nat, size: nat)
    requires size > 0
    ensures var c := ChunkCount(n, size);
      c * size >= n && (c == 0 || (c - 1) * size < n)
    ensures n == 0 <==> ChunkCount(n, size) == 0
  {
    var c := ChunkCount(n, size);
    ChunkCountBound(n, size, c);
    if c > 0 {
      ChunkCountBound(n, size, c - 1);
    }
  }

  /** Chunk `k + 1` of `xs` is chunk `k` of what follows the first chunk. */
  lemma ChunkAtShift<T>(xs: seq<T>, size: nat, k: nat)
    requires size > 0 && |xs| > size && k * size < |xs| - size
    ensures (k + 1) * size < |xs|
    ensures ChunkAt(xs, size, k + 1) == ChunkAt(xs[size..], size, k)
  {
    MulStep(k, size);
    MulStep(k + 1, size);
    var lo := k * size;
    var hi := Min((k + 1) * size, |xs| - size);
    assert xs[size..][lo..hi] == xs[size + lo..size + hi];
  }

  /** Python's slicing comprehension, computed by peeling one chunk at a time. */
  function Chunks<T>(xs: seq<T>, size: nat): (r: seq<seq<T>>)
    requires size > 0
    ensures |r| == ChunkCount(|xs|, size)
    decreases |xs|
  {
    if |xs| == 0 then []
    else if |xs| <= size then [xs]
    else [xs[..size]] + Chunks(xs[size..], size)
  }

  /** Each chunk is exactly the comprehension's slice `xs[k*size : (k+1)*size]`. */
  lemma {:induction false} ChunksAt<T>(xs: seq<T>, size: nat, k: nat)
    requires size > 0 && k < |Chunks(xs, size)|
    ensures k * size < |xs| && Chunks(xs, size)[k] == ChunkAt(xs, size, k)
    decreases |xs|
  {
    ChunkCountBound(|xs|, size, k);
    if k > 0 && |xs| > size {
      ChunksAt(xs[size..], size, k - 1);
      ChunkAtShift(xs, size, k - 1);
    }
  }

  /** Every chunk is non-empty and at most `size` long, all but the last are full,
      and concatenating the chunks restores the input in order. */
  lemma {:induction false} ChunksShape<T>(xs: seq<T>, size: nat)
    requires size > 0
    ensures var r := Chunks(xs, size);
      && Flatten(r) == xs
      && (forall k :: 0 <= k < |r| ==> 0 < |r[k]| <= size)
      && (forall k :: 0 <= k < |r| - 1 ==> |r[k]| == size)
    decreases |xs|
  {
    if |xs| > size {
      ChunksShape(xs[size..], size);
      var r := Chunks(xs, size);
      assert r[1..] == Chunks(xs[size..], size);
    }
  }

  /** Total length of the chunks whose remote call succeeded; `accepted` holds the
      indices of the calls that did not raise. */
  function AcceptedTotal<T>(chunks: seq<seq<T>>, accepted: set<nat>): nat
  {
    if |chunks| == 0 then 0
    else
      AcceptedTotal(chunks[..|chunks| - 1], accepted)
      + (if |chunks| - 1 in accepted then |chunks[|chunks| - 1]| else 0)
  }

  /** Successful calls never account for more items than were sent, all of them when every
      call succeeds, and none when every call fails. */
  lemma {:induction false} AcceptedTotalBounds<T>(chunks: seq<seq<T>>, accepted: set<nat>)
    ensures AcceptedTotal(chunks, accepted) <= |Flatten(chunks)|
    ensures (forall k :: 0 <= k < |chunks| ==> k in accepted) ==> AcceptedTotal(chunks, accepted) == |Flatten(chunks)|
    ensures (forall k :: 0 <= k < |chunks| ==> k !in accepted) ==> AcceptedTotal(chunks, accepted) == 0
  {
    if |chunks| > 0 {
      var init := chunks[..|chunks| - 1];
      AcceptedTotalBounds(init, accepted);
      assert chunks == init + [chunks[|chunks| - 1]];
      FlattenAppend(init, chunks[|chunks| - 1]);
    }
  }

  /** The loop `for i in range(0, len(xs), size): call(xs[i:i + size])` with a per-call
      success oracle: returns the calls made, in order, and the number of items in calls
      that succeeded. */
  method SendInChunks<T>(xs: seq<T>, size: nat, accepted: set<nat>) returns (sent: nat, calls: seq<seq<T>>)
    requires size > 0
    ensures calls == Chunks(xs, size)
    ensures Flatten(calls) == xs
    ensures forall k :: 0 <= k < |calls| ==> 0 < |calls[k]| <= size
    ensures sent == AcceptedTotal(calls, accepted)
    ensures sent <= |xs|
    ensures (forall k :: 0 <= k < |calls| ==> k in accepted) ==> sent == |xs|
  {
    sent := 0;
    calls := [];
    var i := 0;
    while i < |xs|
      invariant i == |calls| * size
      invariant |calls| <= ChunkCount(|xs|, size)
      invariant forall k :: 0 <= k < |calls| ==> calls[k] == Chunks(xs, size)[k]
      invariant sent == AcceptedTotal(calls, accepted)
      decreases |xs| - i
    {
      ChunkCountBound(|xs|, size, |calls|);
      var batch := xs[i..Min(i + size, |xs|)];
      ChunksAt(xs, size, |calls|);
      var k := |calls|;
      calls := calls + [batch];
      assert calls[..|calls| - 1] == calls[..k];
      if k in accepted {
        sent := sent + |batch|;
      }
      MulStep(k, size);
      i := i + size;
    }
    ChunkCountBound(|xs|, size, |calls|);
    var expected := Chunks(xs, size);
    assert calls == expected;
    ChunksShape(xs, size);
    AcceptedTotalBounds(calls, accepted);
  }
}
