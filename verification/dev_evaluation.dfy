/** The dev-set evaluation plan of `dev_step` (train.py, lines 149-214).

    The dev examples are modelled as one sequence of (input, label) pairs:
    the source slices inputs and labels with the same bounds. In split mode
    the set is cut into consecutive chunks of `dev_minibatch` examples, the
    last chunk taking the remainder; each chunk is evaluated and its
    metrics are weighted by its size, and a final pass over the last chunk
    carries the aggregated metrics into the summary. Otherwise one pass
    over the whole set does both. The metric arithmetic itself is floating
    point and is not modelled; the chunk sizes that weight it are. */
module DevEvaluation {
  import opened Options
  import opened Division

  function Min(a: int, b: int): int
  {
    if a <= b then a else b
  }

  /** The chunks glued back together. */
  function Flatten<T>(chunks: seq<seq<T>>): seq<T>
    decreases |chunks|
  {
    if |chunks| == 0 then [] else chunks[0] + Flatten(chunks[1..])
  }

  /** The sum of the chunk sizes, i.e. the total weight of the aggregation. */
  function TotalSize<T>(chunks: seq<seq<T>>): nat
    decreases |chunks|
  {
    if |chunks| == 0 then 0 else |chunks[0]| + TotalSize(chunks[1..])
  }

  /** Reference definition of the split: a chunk of `m`, then the rest. */
  function Chunked<T>(x: seq<T>, m: nat): (chunks: seq<seq<T>>)
    requires m > 0
    ensures |chunks| > 0 <==> |x| > 0
    ensures forall j :: 0 <= j < |chunks| ==> 0 < |chunks[j]| <= m
    decreases |x|
  {
    if |x| == 0 then []
    else if |x| <= m then [x]
    else [x[..m]] + Chunked(x[m..], m)
  }

  /** The chunk loop of lines 154-160: starts at 0, m, 2m, ... below |x|;
      a chunk whose end would not stay below |x| is the tail `x[i:]`. */
  method SplitIntoChunks<T>(x: seq<T>, m: nat) returns (chunks: seq<seq<T>>)
    requires m > 0
    ensures chunks == Chunked(x, m)
  {
    chunks := [];
    var i := 0;
    while i < |x|
      invariant Chunked(x, m) == chunks + Chunked(x[Min(i, |x|)..], m)
      decreases |x| - i
    {
      var mini: seq<T>;
      if i + m < |x| {
        mini := x[i..i + m];
        assert x[i..][..m] == mini;
        assert x[i..][m..] == x[i + m..];
      } else {
        mini := x[i..];
      }
      chunks := chunks + [mini];
      i := i + m;
    }
    assert x[Min(i, |x|)..] == [];
  }

  /** The chunks concatenate back to the dev set. */
  lemma {:induction false} ChunkedFlattens<T>(x: seq<T>, m: nat)
    requires m > 0
    ensures Flatten(Chunked(x, m)) == x
    decreases |x|
  {
    if |x| > m {
      ChunkedFlattens(x[m..], m);
      var c := Chunked(x, m);
      assert c[1..] == Chunked(x[m..], m);
      assert x[..m] + x[m..] == x;
    } else if |x| > 0 {
      assert Flatten([x]) == x + Flatten([x][1..]);
      assert x + [] == x;
    }
  }

  /** The size of a concatenation is the sum of the sizes. */
  lemma {:induction false} FlattenSize<T>(chunks: seq<seq<T>>)
    ensures |Flatten(chunks)| == TotalSize(chunks)
    decreases |chunks|
  {
    if |chunks| > 0 {
      FlattenSize(chunks[1..]);
    }
  }

  /** There are ceil(|x| / m) chunks. */
  lemma {:induction false} ChunkedCount<T>(x: seq<T>, m: nat)
    requires m > 0
    ensures |Chunked(x, m)| == (|x| + m - 1) / m
    decreases |x|
  {
    if |x| > m {
      ChunkedCount(x[m..], m);
      DivAddDivisor(|x| - m + m - 1, m);
    } else if |x| > 0 {
      DivAddDivisor(|x| - 1, m);
      assert (|x| - 1) / m == 0;
    }
  }

  /** Every chunk but the last holds `m` examples; the last holds 1 to `m`. */
  lemma {:induction false} ChunkedSizes<T>(x: seq<T>, m: nat)
    requires m > 0
    ensures forall j :: 0 <= j < |Chunked(x, m)| - 1 ==> |Chunked(x, m)[j]| == m
    ensures |x| > 0 ==> 1 <= |Chunked(x, m)[|Chunked(x, m)| - 1]| <= m
    decreases |x|
  {
    var c := Chunked(x, m);
    if |x| > m {
      var rest := Chunked(x[m..], m);
      ChunkedSizes(x[m..], m);
      assert c == [x[..m]] + rest;
      assert forall j :: 1 <= j < |c| ==> c[j] == rest[j - 1];
    }
  }

  /** Chunk `j` starts at `j * m` and is `x[j*m : min(j*m + m, |x|)]`. */
  lemma {:induction false} ChunkedAt<T>(x: seq<T>, m: nat, j: nat)
    requires m > 0
    requires j < |Chunked(x, m)|
    ensures j * m < |x|
    ensures Chunked(x, m)[j] == x[j * m .. Min(j * m + m, |x|)]
    decreases j
  {
    var c := Chunked(x, m);
    if j > 0 {
      assert |x| > m;
      var rest := x[m..];
      assert c[j] == Chunked(rest, m)[j - 1];
      ChunkedAt(rest, m, j - 1);
      var lo := (j - 1) * m;
      var hi := Min(lo + m, |rest|);
      assert j * m == lo + m;
      assert hi + m == Min(j * m + m, |x|);
      SliceOfSuffix(x, m, lo, hi);
    }
  }

  /** A slice of the suffix after `m` is the slice of `x` shifted by `m`. */
  lemma SliceOfSuffix<T>(x: seq<T>, m: nat, lo: nat, hi: nat)
    requires m <= |x| && lo <= hi <= |x| - m
    ensures x[m..][lo..hi] == x[lo + m .. hi + m]
  {
  }

  /** How one dev evaluation runs. `WholeSet`: one pass over the dev set,
      whose metrics go to the summary. `InChunks`: one metric pass per
      chunk, then a summary pass over `lastPass` (the last chunk) into which
      the size-weighted aggregate is fed as fixed values. */
  datatype DevRun<T> =
    | WholeSet(batch: seq<T>)
    | InChunks(chunks: seq<seq<T>>, lastPass: seq<T>)

  /** `dev_step`. In split mode it raises when `dev_minibatch` is zero
      (`range` rejects a zero step), when it is negative (the loop does not
      run and the last chunk is unbound afterwards) and when the dev set is
      empty (the aggregate divides by its size). */
  function DevStep<T>(dev: seq<T>, splitDev: bool, miniSize: int): (r: Option<DevRun<T>>)
    ensures r.None? <==> splitDev && (miniSize <= 0 || |dev| == 0)
    ensures !splitDev ==> r == Some(WholeSet(dev))
    ensures r.Some? && splitDev ==>
      && r.value.InChunks?
      && Flatten(r.value.chunks) == dev
      && TotalSize(r.value.chunks) == |dev|
      && |r.value.chunks| == (|dev| + miniSize - 1) / miniSize
      && (forall j :: 0 <= j < |r.value.chunks| - 1 ==> |r.value.chunks[j]| == miniSize)
      && 1 <= |r.value.lastPass| <= miniSize
      && r.value.lastPass == r.value.chunks[|r.value.chunks| - 1]
  {
    if !splitDev then Some(WholeSet(dev))
    else if miniSize <= 0 || |dev| == 0 then None
    else
      var chunks := Chunked(dev, miniSize);
      ChunkedFlattens(dev, miniSize);
      FlattenSize(chunks);
      ChunkedCount(dev, miniSize);
      ChunkedSizes(dev, miniSize);
      Some(InChunks(chunks, chunks[|chunks| - 1]))
  }
}
