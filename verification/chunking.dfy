/**
 * Batching of a stream into archives of bounded size.  `Chunks` is the
 * reference: consecutive pieces of exactly `k` elements, the last one
 * possibly shorter.  `Batcher` is the state machine `Zipper.__iter__` runs —
 * a running count over the whole stream, an accumulator that is sealed when
 * the count becomes a multiple of the batch size, and a final flush of a
 * non-empty remainder — and the two are proved to agree.
 */
module Chunking {
  import opened Seqs

  function Abs(x: int): nat
  {
    if x < 0 then -x else x
  }

  /** A non-zero multiple of `k` is at least `k` away from zero. */
  lemma MulBound(a: int, k: int)
    requires k > 0 && a != 0
    ensures a * k >= k || a * k <= -k
  {
    if a > 0 {
      var d := a - 1;
      assert d * k >= 0;
      assert a * k == d * k + k;
    } else {
      var d := -a - 1;
      assert d * k >= 0;
      assert a * k == -(d * k) - k;
    }
  }

  /** Quotient and remainder are determined by any decomposition `z == q * k + r` with `0 <= r < k`. */
  lemma DivModUnique(z: int, k: int, q: int, r: int)
    requires k > 0 && 0 <= r < k && z == q * k + r
    ensures z / k == q && z % k == r
  {
    var q' := z / k;
    var r' := z % k;
    assert (q - q') * k == r' - r;
    if q != q' {
      MulBound(q - q', k);
    }
  }

  /** A negative batch size seals on the same counts as its magnitude. */
  lemma ModNegative(c: int, x: int)
    requires x != 0
    ensures c % x == c % Abs(x)
  {
    if x < 0 {
      assert c == (-(c / x)) * (-x) + c % x;
      DivModUnique(c, -x, -(c / x), c % x);
    }
  }

  /** The reference batching: pieces of `k` elements in order, the last one holding the remainder. */
  function Chunks<T>(s: seq<T>, k: nat): (r: seq<seq<T>>)
    requires k > 0
    ensures Concat(r) == s
    ensures forall i :: 0 <= i < |r| ==> 0 < |r[i]| <= k
    ensures forall i :: 0 <= i < |r| - 1 ==> |r[i]| == k
    decreases |s|
  {
    if |s| == 0 then []
    else if |s| <= k then
      assert Concat([s]) == s + Concat([]);
      [s]
    else
      var rest := Chunks(s[k..], k);
      assert Concat([s[..k]] + rest) == s[..k] + Concat(rest) by {
        assert ([s[..k]] + rest)[1..] == rest;
      }
      assert s == s[..k] + s[k..];
      [s[..k]] + rest
  }

  /** The number of batches is the least `n` with `n * k >= |s|`, that is `ceil(|s| / k)`. */
  lemma ChunkCount<T>(s: seq<T>, k: nat)
    requires k > 0
    ensures |Chunks(s, k)| == (|s| + k - 1) / k
    ensures |Chunks(s, k)| * k >= |s|
    ensures |s| > 0 ==> (|Chunks(s, k)| - 1) * k < |s|
  {
    var n := |Chunks(s, k)|;
    ChunkBounds(s, k);
    if |s| == 0 {
      DivModUnique(|s| + k - 1, k, 0, k - 1);
    } else {
      var t := |s| - (n - 1) * k;
      MulPred(n, k);
      DivModUnique(|s| + k - 1, k, n, t - 1);
    }
  }

  /** `n` batches of at most `k` hold at most `n * k` elements, and all but one hold more than `(n - 1) * k`. */
  lemma {:induction false} ChunkBounds<T>(s: seq<T>, k: nat)
    requires k > 0
    ensures |Chunks(s, k)| * k >= |s|
    ensures |s| > 0 ==> (|Chunks(s, k)| - 1) * k < |s|
    decreases |s|
  {
    if |s| > k {
      var m := |Chunks(s[k..], k)|;
      ChunkBounds(s[k..], k);
      assert |Chunks(s, k)| == m + 1;
      MulPred(m + 1, k);
      MulPred(m, k);
    }
  }

  lemma MulPred(n: int, k: int)
    ensures n * k == (n - 1) * k + k
  {
  }

  /** Chunking with `k` elements already taken off the front. */
  lemma ChunksFront<T>(s: seq<T>, k: nat)
    requires k > 0 && |s| >= k
    ensures Chunks(s, k) == [s[..k]] + Chunks(s[k..], k)
  {
    if |s| == k {
      assert s[..k] == s;
      assert s[k..] == [];
    }
  }

  /**
   * Full batches followed by a short remainder are exactly what `Chunks`
   * cuts from their concatenation.
   */
  lemma {:induction false} ChunksOfBatches<T>(batches: seq<seq<T>>, rest: seq<T>, k: nat)
    requires k > 0
    requires forall i :: 0 <= i < |batches| ==> |batches[i]| == k
    requires |rest| <= k
    ensures Chunks(Concat(batches) + rest, k) == batches + (if |rest| > 0 then [rest] else [])
    decreases |batches|
  {
    if |batches| > 0 {
      var s := Concat(batches) + rest;
      assert s == batches[0] + (Concat(batches[1..]) + rest);
      ChunksFront(s, k);
      assert s[..k] == batches[0];
      assert s[k..] == Concat(batches[1..]) + rest;
      ChunksOfBatches(batches[1..], rest, k);
      assert batches == [batches[0]] + batches[1..];
    } else {
      assert Concat(batches) + rest == rest;
    }
  }

  /** All-full batches hold `k` elements per batch in total. */
  lemma {:induction false} FullBatchesLength<T>(batches: seq<seq<T>>, k: nat)
    requires forall i :: 0 <= i < |batches| ==> |batches[i]| == k
    ensures |Concat(batches)| == |batches| * k
    decreases |batches|
  {
    if |batches| > 0 {
      FullBatchesLength(batches[1..], k);
      assert |batches| * k == (|batches| - 1) * k + k;
    }
  }

  /** The state of `Zipper.__iter__`: the running count, the open batch and the batches yielded so far. */
  datatype Batcher<T> = Batcher(count: nat, accumulator: seq<T>, yielded: seq<seq<T>>)

  function Start<T>(): Batcher<T>
  {
    Batcher(0, [], [])
  }

  /** One appended entry: count it, add it to the open batch, and seal that batch on a multiple of `xZip`. */
  function Push<T>(b: Batcher<T>, e: T, xZip: int): (r: Batcher<T>)
    requires xZip != 0
    ensures r.count == b.count + 1
    ensures b.yielded <= r.yielded && |r.yielded| <= |b.yielded| + 1
    ensures Concat(r.yielded) + r.accumulator == Concat(b.yielded) + b.accumulator + [e]
  {
    var count := b.count + 1;
    var accumulator := b.accumulator + [e];
    ConcatAppend(b.yielded, accumulator);
    if count % xZip == 0 then Batcher(count, [], b.yielded + [accumulator])
    else Batcher(count, accumulator, b.yielded)
  }

  /** Pushing every entry in order; nothing yielded is ever taken back and no entry is lost. */
  function Feed<T>(b: Batcher<T>, entries: seq<T>, xZip: int): (r: Batcher<T>)
    requires xZip != 0
    ensures r.count == b.count + |entries|
    ensures b.yielded <= r.yielded
    ensures Concat(r.yielded) + r.accumulator == Concat(b.yielded) + b.accumulator + entries
    decreases |entries|
  {
    if |entries| == 0 then b
    else
      var p := Push(b, entries[0], xZip);
      var r := Feed(p, entries[1..], xZip);
      assert entries == [entries[0]] + entries[1..];
      r
  }

  /** The loop body of `Zipper.__iter__` on the three state variables: one `Push`. */
  method Step<T>(count: nat, accumulator: seq<T>, yielded: seq<seq<T>>, e: T, xZip: int)
    returns (count': nat, accumulator': seq<T>, yielded': seq<seq<T>>)
    requires xZip != 0
    ensures Batcher(count', accumulator', yielded') == Push(Batcher(count, accumulator, yielded), e, xZip)
  {
    count' := count + 1;
    accumulator' := accumulator + [e];
    yielded' := yielded;
    if count' % xZip == 0 {
      yielded' := yielded' + [accumulator'];
      accumulator' := [];
    }
  }

  /** Feeding one more entry is one more push. */
  lemma {:induction false} FeedSnoc<T>(b: Batcher<T>, entries: seq<T>, e: T, xZip: int)
    requires xZip != 0
    ensures Feed(b, entries + [e], xZip) == Push(Feed(b, entries, xZip), e, xZip)
    decreases |entries|
  {
    if |entries| == 0 {
      assert entries + [e] == [e];
    } else {
      assert (entries + [e])[1..] == entries[1..] + [e];
      FeedSnoc(Push(b, entries[0], xZip), entries[1..], e, xZip);
    }
  }

  /** The entries `make(0), ..., make(n - 1)`. */
  function Made<T>(make: nat -> T, n: nat): (r: seq<T>)
    ensures |r| == n && forall i :: 0 <= i < n ==> r[i] == make(i)
  {
    seq(n, i requires 0 <= i < n => make(i))
  }

  /**
   * The loop of `Zipper.__iter__` over `n` generated entries, the `i`-th
   * being `make(i)`: one `Step` per entry.
   */
  method FeedEach<T>(count: nat, accumulator: seq<T>, yielded: seq<seq<T>>, make: nat -> T, n: nat, xZip: int)
    returns (count': nat, accumulator': seq<T>, yielded': seq<seq<T>>)
    requires xZip != 0
    ensures Batcher(count', accumulator', yielded') == Feed(Batcher(count, accumulator, yielded), Made(make, n), xZip)
  {
    ghost var start := Batcher(count, accumulator, yielded);
    ghost var entries := Made(make, n);
    count', accumulator', yielded' := count, accumulator, yielded;
    var i := 0;
    while i < n
      invariant i <= n
      invariant Batcher(count', accumulator', yielded') == Feed(start, entries[..i], xZip)
    {
      var e := make(i);
      count', accumulator', yielded' := Step(count', accumulator', yielded', e, xZip);
      assert entries[..i + 1] == entries[..i] + [e];
      FeedSnoc(start, entries[..i], e, xZip);
      i := i + 1;
    }
    assert entries[..i] == entries;
  }

  /** Feeding two pieces one after the other is feeding their concatenation. */
  lemma {:induction false} FeedAppend<T>(b: Batcher<T>, front: seq<T>, back: seq<T>, xZip: int)
    requires xZip != 0
    ensures Feed(b, front + back, xZip) == Feed(Feed(b, front, xZip), back, xZip)
    decreases |front|
  {
    if |front| == 0 {
      assert front + back == back;
    } else {
      assert (front + back)[0] == front[0];
      assert (front + back)[1..] == front[1..] + back;
      FeedAppend(Push(b, front[0], xZip), front[1..], back, xZip);
    }
  }

  /** The final `if accumulator: yield accumulator`. */
  function Flush<T>(b: Batcher<T>): (r: seq<seq<T>>)
    ensures b.yielded <= r && |r| <= |b.yielded| + 1
    ensures Concat(r) == Concat(b.yielded) + b.accumulator
    ensures forall i :: |b.yielded| <= i < |r| ==> |r[i]| > 0
  {
    ConcatAppend(b.yielded, b.accumulator);
    if |b.accumulator| > 0 then b.yielded + [b.accumulator] else b.yielded
  }

  /** What the state machine keeps true after consuming `seen`. */
  ghost predicate Tracks<T>(b: Batcher<T>, seen: seq<T>, k: nat)
  {
    && b.count == |seen|
    && |b.accumulator| < k
    && (forall i :: 0 <= i < |b.yielded| ==> |b.yielded[i]| == k)
    && seen == Concat(b.yielded) + b.accumulator
  }

  /** The count decides sealing exactly when the open batch becomes full. */
  lemma PushTracks<T>(b: Batcher<T>, seen: seq<T>, e: T, xZip: int)
    requires xZip != 0
    requires Tracks(b, seen, Abs(xZip))
    ensures Tracks(Push(b, e, xZip), seen + [e], Abs(xZip))
  {
    var k := Abs(xZip);
    var n := |b.yielded|;
    FullBatchesLength(b.yielded, k);
    var count := b.count + 1;
    ModNegative(count, xZip);
    if |b.accumulator| + 1 == k {
      assert count == (n + 1) * k + 0;
      DivModUnique(count, k, n + 1, 0);
      ConcatAppend(b.yielded, b.accumulator + [e]);
    } else {
      assert count == n * k + (|b.accumulator| + 1);
      DivModUnique(count, k, n, |b.accumulator| + 1);
    }
  }

  lemma {:induction false} FeedTracks<T>(b: Batcher<T>, seen: seq<T>, entries: seq<T>, xZip: int)
    requires xZip != 0
    requires Tracks(b, seen, Abs(xZip))
    ensures Tracks(Feed(b, entries, xZip), seen + entries, Abs(xZip))
    decreases |entries|
  {
    if |entries| > 0 {
      PushTracks(b, seen, entries[0], xZip);
      assert seen + entries == (seen + [entries[0]]) + entries[1..];
      FeedTracks(Push(b, entries[0], xZip), seen + [entries[0]], entries[1..], xZip);
    } else {
      assert seen + entries == seen;
    }
  }

  /**
   * The state machine yields exactly the reference batches: concatenated
   * they give back the stream, every batch but the last holds `|xZip|`
   * entries, the last is non-empty, and there are `ceil(M / |xZip|)` of them.
   */
  lemma BatchingIsChunking<T>(entries: seq<T>, xZip: int)
    requires xZip != 0
    ensures Flush(Feed(Start(), entries, xZip)) == Chunks(entries, Abs(xZip))
  {
    assert Tracks(Start<T>(), [], Abs(xZip));
    FeedTracks(Start(), [], entries, xZip);
    assert [] + entries == entries;
    var b := Feed(Start(), entries, xZip);
    ChunksOfBatches(b.yielded, b.accumulator, Abs(xZip));
  }

  /** The batches sealed by the count alone, before any final flush. */
  function Sealed<T>(entries: seq<T>, k: nat): seq<seq<T>>
    requires k > 0
  {
    Chunks(entries[..|entries| - |entries| % k], k)
  }

  /** Without the final flush the state machine has yielded the full batches only. */
  lemma YieldedIsSealed<T>(entries: seq<T>, xZip: int)
    requires xZip != 0
    ensures Feed(Start(), entries, xZip).yielded == Sealed(entries, Abs(xZip))
  {
    var k := Abs(xZip);
    assert Tracks(Start<T>(), [], k);
    FeedTracks(Start(), [], entries, xZip);
    assert [] + entries == entries;
    var b := Feed(Start(), entries, xZip);
    FullBatchesLength(b.yielded, k);
    DivModUnique(|entries|, k, |b.yielded|, |b.accumulator|);
    assert entries[..|entries| - |entries| % k] == Concat(b.yielded);
    ChunksOfBatches(b.yielded, [], k);
    assert Concat(b.yielded) + [] == Concat(b.yielded);
  }

  /** The sealed batches are all full and hold the stream up to its last `|entries| % k` entries. */
  lemma SealedAreFull<T>(entries: seq<T>, k: nat)
    requires k > 0
    ensures forall i :: 0 <= i < |Sealed(entries, k)| ==> |Sealed(entries, k)[i]| == k
    ensures Concat(Sealed(entries, k)) == entries[..|entries| - |entries| % k]
    ensures Concat(Sealed(entries, k)) <= entries
    ensures |entries| - |Concat(Sealed(entries, k))| < k
  {
    assert Tracks(Start<T>(), [], k);
    FeedTracks(Start(), [], entries, k);
    YieldedIsSealed(entries, k);
  }
}
