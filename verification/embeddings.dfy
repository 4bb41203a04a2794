/** The embedding initialiser `init_embeddings` (train.py, lines 35-54).

    The tensor has one slice per configured word-vector type plus one extra
    slice, one row per vocabulary token and `dim_proj` entries per row. The
    random initial tensor is a parameter and the entry type `E` is abstract.
    Each pretrained source is laid over its own slice in order: every token
    the source knows gets the source's vector as its row. Each pass also
    counts the matches and records a map from vector index to vocabulary
    position, which is handed to the source's `set_mappings`. */
module Embeddings {
  import opened Options

  type Token = string
  type Row<E> = seq<E>
  type Slice<E> = seq<Row<E>>
  type Tensor<E> = seq<Slice<E>>

  /** A pretrained source: the token index `word_to_index` and the `vectors`
      it indexes. An index is any Python integer; a negative one counts from
      the end of `vectors`. */
  datatype Pretrained<E> = Pretrained(wordToIndex: map<Token, int>, vectors: seq<Row<E>>)

  /** The configuration keys that the initialiser reads. */
  datatype Config = Config(wordVectorTypes: seq<string>, dimProj: nat)

  /** What one source's pass produces besides the overlay: the match count it
      prints and the mapping it passes to `set_mappings`. */
  datatype Report = Report(count: nat, mappings: map<int, nat>)

  datatype Initialised<E> = Initialised(tensor: Tensor<E>, reports: seq<Report>)

  /** `t` has shape sources x words x dim. */
  predicate HasShape<E>(t: Tensor<E>, sources: nat, words: nat, dim: nat)
  {
    && |t| == sources
    && forall k :: 0 <= k < |t| ==>
         && |t[k]| == words
         && forall i :: 0 <= i < |t[k]| ==> |t[k][i]| == dim
  }

  /** numpy accepts a vector as a row of width `dim` when it has exactly `dim`
      entries, or one entry, which it broadcasts. */
  predicate Assignable<E>(v: Row<E>, dim: nat)
  {
    |v| == dim || |v| == 1
  }

  /** The row numpy stores when `v` is assigned to a row of width `dim`. */
  function Broadcast<E>(v: Row<E>, dim: nat): (row: Row<E>)
    requires Assignable(v, dim)
    ensures |row| == dim
    ensures |v| == dim ==> row == v
    ensures forall j :: 0 <= j < dim ==> row[j] in v
  {
    if |v| == dim then v else seq(dim, _ => v[0])
  }

  /** Python accepts a sequence index `k` into `len` elements when
      `-len <= k < len`, and raises IndexError otherwise. */
  predicate InRange(k: int, len: nat)
  {
    -(len as int) <= k < len
  }

  /** The position Python's index `k` selects: `k` itself, or `len + k`
      when `k` counts from the end. */
  function Position(k: int, len: nat): (pos: nat)
    requires InRange(k, len)
    ensures pos < len
    ensures pos == k || pos == k + len
  {
    if k < 0 then len + k else k
  }

  /** The element Python's `s[k]` reads is the one whose position is
      congruent to `k` modulo the length, and there is just one. */
  lemma PositionIsUnique(k: int, len: nat, p: nat)
    requires InRange(k, len) && p < len
    ensures p == Position(k, len) <==> (p - k) % len == 0
  {
  }

  /** The vector of `src` that Python's `vectors[k]` reads. */
  function VectorAt<E>(src: Pretrained<E>, k: int): Row<E>
    requires InRange(k, |src.vectors|)
  {
    src.vectors[Position(k, |src.vectors|)]
  }

  /** The first `n` vocabulary tokens that `src` knows all name a vector
      that exists and fits a row of width `dim`. */
  predicate AlignsUpTo<E>(src: Pretrained<E>, vocab: seq<Token>, dim: nat, n: nat)
    requires n <= |vocab|
  {
    forall i :: 0 <= i < n && vocab[i] in src.wordToIndex ==>
      && InRange(src.wordToIndex[vocab[i]], |src.vectors|)
      && Assignable(VectorAt(src, src.wordToIndex[vocab[i]]), dim)
  }

  /** The pass of `src` over the whole vocabulary raises no exception. */
  predicate AlignsWith<E>(src: Pretrained<E>, vocab: seq<Token>, dim: nat)
  {
    AlignsUpTo(src, vocab, dim, |vocab|)
  }

  /** The row that source `src` stores for the `i`-th vocabulary token. */
  function StoredRow<E>(src: Pretrained<E>, vocab: seq<Token>, dim: nat, i: nat): Row<E>
    requires i < |vocab| && vocab[i] in src.wordToIndex
    requires AlignsUpTo(src, vocab, dim, i + 1)
  {
    Broadcast(VectorAt(src, src.wordToIndex[vocab[i]]), dim)
  }

  /** Reference definition of one pass: the known tokens take the source's
      row, every other row stays as it was. */
  function Overlaid<E>(slice: Slice<E>, vocab: seq<Token>, src: Pretrained<E>, dim: nat): Slice<E>
    requires |slice| == |vocab|
    requires AlignsWith(src, vocab, dim)
  {
    seq(|slice|, i requires 0 <= i < |slice| =>
      if vocab[i] in src.wordToIndex then StoredRow(src, vocab, dim, i) else slice[i])
  }

  /** The positions among the first `n` vocabulary tokens that `src` knows. */
  function MatchedPositions<E>(vocab: seq<Token>, src: Pretrained<E>, n: nat): set<nat>
    requires n <= |vocab|
  {
    set i: nat | i < n && vocab[i] in src.wordToIndex
  }

  /** The vector indices those positions reach. */
  function MatchedVectors<E>(vocab: seq<Token>, src: Pretrained<E>, n: nat): set<int>
    requires n <= |vocab|
  {
    set i: nat | i < n && vocab[i] in src.wordToIndex :: src.wordToIndex[vocab[i]]
  }

  /** `m` is what the dictionary `mappings` holds after the first `n` tokens:
      its keys are the vector indices reached, and each maps to the LAST
      vocabulary position that reached it (a later assignment overwrites). */
  predicate RecordsLastMatch<E>(m: map<int, nat>, vocab: seq<Token>, src: Pretrained<E>, n: nat)
    requires n <= |vocab|
  {
    && m.Keys == MatchedVectors(vocab, src, n)
    && forall k :: k in m ==>
         && m[k] < n
         && vocab[m[k]] in src.wordToIndex
         && src.wordToIndex[vocab[m[k]]] == k
         && forall j :: m[k] < j < n && vocab[j] in src.wordToIndex ==> src.wordToIndex[vocab[j]] != k
  }

  /** Extending the scanned prefix by one token adds that position to the
      matches exactly when the source knows the token. */
  lemma MatchStep<E>(vocab: seq<Token>, src: Pretrained<E>, n: nat)
    requires n < |vocab|
    ensures vocab[n] in src.wordToIndex ==>
      |MatchedPositions(vocab, src, n + 1)| == |MatchedPositions(vocab, src, n)| + 1
    ensures vocab[n] !in src.wordToIndex ==>
      MatchedPositions(vocab, src, n + 1) == MatchedPositions(vocab, src, n)
  {
    var before := MatchedPositions(vocab, src, n);
    if vocab[n] in src.wordToIndex {
      assert MatchedPositions(vocab, src, n + 1) == before + {n};
      assert n !in before;
    }
  }

  /** Extending the scanned prefix by one token adds that token's vector
      index to the reached ones exactly when the source knows the token. */
  lemma VectorStep<E>(vocab: seq<Token>, src: Pretrained<E>, n: nat)
    requires n < |vocab|
    ensures vocab[n] in src.wordToIndex ==>
      MatchedVectors(vocab, src, n + 1) == MatchedVectors(vocab, src, n) + {src.wordToIndex[vocab[n]]}
    ensures vocab[n] !in src.wordToIndex ==>
      MatchedVectors(vocab, src, n + 1) == MatchedVectors(vocab, src, n)
  {
  }

  /** Recording position `n` (when it matches) keeps `RecordsLastMatch`. */
  lemma RecordStep<E>(m: map<int, nat>, vocab: seq<Token>, src: Pretrained<E>, n: nat)
    requires n < |vocab|
    requires RecordsLastMatch(m, vocab, src, n)
    ensures vocab[n] in src.wordToIndex ==>
      RecordsLastMatch(m[src.wordToIndex[vocab[n]] := n], vocab, src, n + 1)
    ensures vocab[n] !in src.wordToIndex ==> RecordsLastMatch(m, vocab, src, n + 1)
  {
  }

  /** One source's pass (the body of the outer loop, lines 42-53). Fails
      exactly when a known token names a missing vector or one numpy cannot
      fit into the row. */
  method OverlaySource<E>(slice: Slice<E>, vocab: seq<Token>, src: Pretrained<E>, dim: nat)
    returns (r: Option<(Slice<E>, Report)>)
    requires |slice| == |vocab|
    ensures r.Some? <==> AlignsWith(src, vocab, dim)
    ensures r.Some? ==> r.value.0 == Overlaid(slice, vocab, src, dim)
    ensures r.Some? ==> r.value.1.count == |MatchedPositions(vocab, src, |vocab|)|
    ensures r.Some? ==> RecordsLastMatch(r.value.1.mappings, vocab, src, |vocab|)
  {
    var rows := slice;
    var counts := 0;
    var mappings: map<int, nat> := map[];
    var index := 0;
    while index < |vocab|
      invariant index <= |vocab|
      invariant AlignsUpTo(src, vocab, dim, index)
      invariant |rows| == |slice|
      invariant forall i :: 0 <= i < index ==>
        rows[i] == (if vocab[i] in src.wordToIndex then StoredRow(src, vocab, dim, i) else slice[i])
      invariant forall i :: index <= i < |rows| ==> rows[i] == slice[i]
      invariant counts == |MatchedPositions(vocab, src, index)|
      invariant RecordsLastMatch(mappings, vocab, src, index)
    {
      var entry := vocab[index];
      if entry in src.wordToIndex {
        var vecIndex := src.wordToIndex[entry];
        if !InRange(vecIndex, |src.vectors|) || !Assignable(VectorAt(src, vecIndex), dim) {
          return None;
        }
        MatchStep(vocab, src, index);
        RecordStep(mappings, vocab, src, index);
        mappings := mappings[vecIndex := index];
        counts := counts + 1;
        rows := rows[index := Broadcast(VectorAt(src, vecIndex), dim)];
      } else {
        MatchStep(vocab, src, index);
        RecordStep(mappings, vocab, src, index);
      }
      index := index + 1;
    }
    r := Some((rows, Report(counts, mappings)));
  }

  /** `init_embeddings`: lays each pretrained source over its own slice of
      the initial tensor. It raises when there are more sources than
      configured word-vector types (the progress message indexes
      `word_vector_type` by the source's position) or when a source does not
      align with the vocabulary. */
  method InitEmbeddings<E>(config: Config, init: Tensor<E>, pretrained: seq<Pretrained<E>>, vocab: seq<Token>)
    returns (r: Option<Initialised<E>>)
    requires HasShape(init, |config.wordVectorTypes| + 1, |vocab|, config.dimProj)
    ensures r.Some? <==>
      && |pretrained| <= |config.wordVectorTypes|
      && forall k :: 0 <= k < |pretrained| ==> AlignsWith(pretrained[k], vocab, config.dimProj)
    ensures r.Some? ==> HasShape(r.value.tensor, |config.wordVectorTypes| + 1, |vocab|, config.dimProj)
    ensures r.Some? ==> forall k, i :: 0 <= k < |pretrained| && 0 <= i < |vocab| && vocab[i] in pretrained[k].wordToIndex ==>
      r.value.tensor[k][i] == StoredRow(pretrained[k], vocab, config.dimProj, i)
    ensures r.Some? ==> forall k, i :: 0 <= k < |init| && 0 <= i < |vocab| && (k >= |pretrained| || vocab[i] !in pretrained[k].wordToIndex) ==>
      r.value.tensor[k][i] == init[k][i]
    ensures r.Some? ==> r.value.tensor[|config.wordVectorTypes|] == init[|config.wordVectorTypes|]
    ensures r.Some? ==> |r.value.reports| == |pretrained|
    ensures r.Some? ==> forall k :: 0 <= k < |pretrained| ==>
      && r.value.reports[k].count == |MatchedPositions(vocab, pretrained[k], |vocab|)|
      && RecordsLastMatch(r.value.reports[k].mappings, vocab, pretrained[k], |vocab|)
    ensures |pretrained| == 0 ==> r == Some(Initialised(init, []))
  {
    var dim := config.dimProj;
    var tensor := init;
    var reports: seq<Report> := [];
    var index3d := 0;
    while index3d < |pretrained|
      invariant index3d <= |pretrained|
      invariant index3d <= |config.wordVectorTypes|
      invariant forall k :: 0 <= k < index3d ==> AlignsWith(pretrained[k], vocab, dim)
      invariant HasShape(tensor, |config.wordVectorTypes| + 1, |vocab|, dim)
      invariant forall k :: 0 <= k < index3d ==> tensor[k] == Overlaid(init[k], vocab, pretrained[k], dim)
      invariant forall k :: index3d <= k < |tensor| ==> tensor[k] == init[k]
      invariant index3d == 0 ==> tensor == init
      invariant |reports| == index3d
      invariant forall k :: 0 <= k < index3d ==>
        && reports[k].count == |MatchedPositions(vocab, pretrained[k], |vocab|)|
        && RecordsLastMatch(reports[k].mappings, vocab, pretrained[k], |vocab|)
    {
      var pass := OverlaySource(tensor[index3d], vocab, pretrained[index3d], dim);
      if pass.None? {
        return None;
      }
      // the progress message reads word_vector_type[index_3d]
      if index3d >= |config.wordVectorTypes| {
        return None;
      }
      var (slice, report) := pass.value;
      tensor := tensor[index3d := slice];
      reports := reports + [report];
      index3d := index3d + 1;
    }
    r := Some(Initialised(tensor, reports));
  }

  /** The vocabulary lists every token once, as the vocabulary processor's does. */
  predicate Distinct(vocab: seq<Token>)
  {
    forall i, j :: 0 <= i < j < |vocab| ==> vocab[i] != vocab[j]
  }

  /** Distinct tokens of the source name distinct vectors. */
  predicate IndexInjective<E>(src: Pretrained<E>)
  {
    forall s, t :: s in src.wordToIndex && t in src.wordToIndex && s != t ==>
      src.wordToIndex[s] != src.wordToIndex[t]
  }

  /** The distinct tokens among the first `n` of the vocabulary that `src` knows. */
  function KnownTokens<E>(vocab: seq<Token>, src: Pretrained<E>, n: nat): set<Token>
    requires n <= |vocab|
  {
    set t | t in vocab[..n] && t in src.wordToIndex
  }

  /** Scanning one more token adds it to the known tokens exactly when the
      source knows it. */
  lemma KnownStep<E>(vocab: seq<Token>, src: Pretrained<E>, n: nat)
    requires n < |vocab|
    ensures vocab[n] in src.wordToIndex ==>
      KnownTokens(vocab, src, n + 1) == KnownTokens(vocab, src, n) + {vocab[n]}
    ensures vocab[n] !in src.wordToIndex ==>
      KnownTokens(vocab, src, n + 1) == KnownTokens(vocab, src, n)
  {
    assert vocab[..n + 1] == vocab[..n] + [vocab[n]];
    forall u
      ensures u in KnownTokens(vocab, src, n + 1) <==>
        u in KnownTokens(vocab, src, n) || (u == vocab[n] && u in src.wordToIndex)
    {
      assert u in vocab[..n + 1] <==> u in vocab[..n] || u == vocab[n];
    }
  }

  /** In a duplicate-free vocabulary a token does not occur before its position. */
  lemma NotInPrefix(vocab: seq<Token>, n: nat)
    requires n < |vocab| && Distinct(vocab)
    ensures vocab[n] !in vocab[..n]
  {
  }

  /** With a duplicate-free vocabulary the printed count is the number of
      vocabulary tokens the source knows. */
  lemma {:induction false} CountIsKnownTokens<E>(vocab: seq<Token>, src: Pretrained<E>, n: nat)
    requires n <= |vocab|
    requires Distinct(vocab)
    ensures |MatchedPositions(vocab, src, n)| == |KnownTokens(vocab, src, n)|
    decreases n
  {
    if n > 0 {
      var t := vocab[n - 1];
      var before := KnownTokens(vocab, src, n - 1);
      CountIsKnownTokens(vocab, src, n - 1);
      MatchStep(vocab, src, n - 1);
      KnownStep(vocab, src, n - 1);
      if t in src.wordToIndex {
        NotInPrefix(vocab, n - 1);
        assert t !in before;
        assert |before + {t}| == |before| + 1;
      }
    } else {
      assert KnownTokens(vocab, src, 0) == {};
    }
  }

  /** With a duplicate-free vocabulary and an injective source index, each
      matched position is recorded under its own vector index, so the
      mapping inverts `word_to_index` on the vocabulary. */
  lemma MappingsInvertIndex<E>(m: map<int, nat>, vocab: seq<Token>, src: Pretrained<E>)
    requires Distinct(vocab) && IndexInjective(src)
    requires RecordsLastMatch(m, vocab, src, |vocab|)
    ensures forall i :: 0 <= i < |vocab| && vocab[i] in src.wordToIndex ==>
      src.wordToIndex[vocab[i]] in m && m[src.wordToIndex[vocab[i]]] == i
  {
  }

  /** A new matched position reaches a vector index no earlier position reached. */
  lemma FreshVector<E>(vocab: seq<Token>, src: Pretrained<E>, n: nat)
    requires n < |vocab| && vocab[n] in src.wordToIndex
    requires Distinct(vocab) && IndexInjective(src)
    ensures src.wordToIndex[vocab[n]] !in MatchedVectors(vocab, src, n)
  {
  }

  /** Under the same conditions the mapping has one entry per match. */
  lemma {:induction false} MappingsSizeIsCount<E>(vocab: seq<Token>, src: Pretrained<E>, n: nat)
    requires n <= |vocab|
    requires Distinct(vocab) && IndexInjective(src)
    ensures |MatchedVectors(vocab, src, n)| == |MatchedPositions(vocab, src, n)|
    decreases n
  {
    if n > 0 {
      MappingsSizeIsCount(vocab, src, n - 1);
      MatchStep(vocab, src, n - 1);
      var t := vocab[n - 1];
      VectorStep(vocab, src, n - 1);
      if t in src.wordToIndex {
        FreshVector(vocab, src, n - 1);
      }
    } else {
      assert MatchedVectors(vocab, src, 0) == {};
      assert MatchedPositions(vocab, src, 0) == {};
    }
  }

  /** A source knowing "cat" and "dog" over the vocabulary ["cat", "fish"]:
      "cat" takes the source's vector, "fish" keeps its initial row, and one
      match is counted. */
  lemma CatFishExample(slice: Slice<int>)
    requires |slice| == 2
    ensures
      var src := Pretrained(map["cat" := 0, "dog" := 1], [[1, 0], [0, 1]]);
      var vocab := ["cat", "fish"];
      && AlignsWith(src, vocab, 2)
      && Overlaid(slice, vocab, src, 2) == [[1, 0], slice[1]]
      && |MatchedPositions(vocab, src, 2)| == 1
  {
    var src := Pretrained(map["cat" := 0, "dog" := 1], [[1, 0], [0, 1]]);
    var vocab := ["cat", "fish"];
    assert "fish" !in src.wordToIndex;
    assert MatchedPositions(vocab, src, 2) == {0};
  }

  /** An index of -1 reads the last vector: over the vocabulary ["cat",
      "<unk>"], "<unk>" takes the second of two vectors, and the mapping
      records it under the key -1, as the dictionary at line 46 does. */
  lemma NegativeIndexExample(slice: Slice<int>, m: map<int, nat>)
    requires |slice| == 2
    ensures
      var src := Pretrained(map["cat" := 0, "<unk>" := -1], [[1, 0], [0, 1]]);
      var vocab := ["cat", "<unk>"];
      && AlignsWith(src, vocab, 2)
      && Overlaid(slice, vocab, src, 2) == [[1, 0], [0, 1]]
      && (RecordsLastMatch(m, vocab, src, 2) ==> m == map[0 := 0, -1 := 1])
  {
    var src := Pretrained(map["cat" := 0, "<unk>" := -1], [[1, 0], [0, 1]]);
    var vocab := ["cat", "<unk>"];
    assert vocab[0] in src.wordToIndex && vocab[1] in src.wordToIndex;
    if RecordsLastMatch(m, vocab, src, 2) {
      assert MatchedVectors(vocab, src, 2) == {0, -1};
      assert m[0] == 0 && m[-1] == 1;
    }
  }
}
