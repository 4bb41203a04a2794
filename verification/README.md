# rnn_sent training driver: a Dafny model of its own logic

`train.py` trains a recurrent text classifier. Nearly all of it is calls into
TensorFlow. This project models the parts of it that are the repository's own
logic, and proves properties about them:

- **Maximum document length** (`Documents`, train.py line 21). Every training
  text is split on a single space, as Python's `str.split(" ")` does. The
  largest piece count is kept. An empty training set raises.
- **Embedding initialisation** (`Embeddings`, `init_embeddings`, lines 35-54).
  The tensor has shape (word-vector types + 1) × vocabulary × `dim_proj`.
  Each pretrained source is laid over its own slice. Every vocabulary token
  the source knows takes the source's vector. The pass counts the matches and
  records the `vec_index → vocabulary position` map handed to
  `set_mappings`. The random initial tensor is a parameter. The entry type is
  a type parameter, so no floats are involved.
- **Dev-set evaluation plan** (`DevEvaluation`, `dev_step`, lines 149-214).
  In split mode the dev set is cut into chunks of `dev_minibatch` examples,
  and the last chunk takes the remainder. Then one summary pass runs over the
  last chunk. Otherwise one pass runs over the whole set.
- **Step scheduling** (`Schedule`, `train_step`, lines 114, 133, 146, and the
  loop at 266-268). Full tracing happens on iterations ≡ 99 (mod 100).
  Embeddings are saved when the model's step counter equals `save_step`. The
  dev set is evaluated when that counter is a multiple of `evaluate_every`.
  The step counter comes out of `sess.run`, so it is a NumPy integer. Its `%`
  follows Python's sign rule, and a zero divisor yields 0 with a warning
  instead of raising. So `evaluate_every` = 0 evaluates at every step. A
  `dev_step` that raises ends the run in the step that called it.

A Python exception aborts the whole run, so the model writes it as
`Options.None`, or as the end of the run in `Schedule.RunActions`. The model
fails in exactly these cases:

- `max_document_length` fails for an empty training set, because `max` of
  an empty sequence raises (line 21).
- `init_embeddings` fails when there are more pretrained sources than
  configured word-vector types. The progress message at lines 51-52 indexes
  `word_vector_type` by the source's position.
- It also fails when a known vocabulary token names a vector index `k`
  outside `-len(vectors) <= k < len(vectors)` (line 50). As in Python, a
  negative index counts from the end of `vectors`, and the mapping records
  the index as written, so -1 stays -1.
- It also fails when that vector has neither `dim_proj` entries nor one entry
  (line 49). numpy broadcasts a one-entry vector, and the model does the same.
- Split-mode `dev_step` fails when `dev_minibatch` is 0, because `range`
  rejects a zero step.
- It fails when `dev_minibatch` is negative: the loop never runs, and
  `mini_x_batch` is unbound at line 183.
- It fails when the dev set is empty, because the average at line 179
  divides by zero.
- A training run ends in the first step that evaluates the dev set when
  `dev_step` fails for one of the three reasons above. No later batch runs.

Two consequences of the code are easy to miss:

- An empty text splits into one piece, so it counts as 1.
- Dev chunks are never merged. Every chunk except the last has exactly
  `dev_minibatch` examples, and the last one has 1 to `dev_minibatch`.

Dafny's `/` and `%` are Euclidean. Line 146 uses NumPy's integer `%`, which
takes the sign of the divisor, as Python's does. `Schedule.PyMod` writes it
out. Line 114 has a non-negative left operand, where the two agree. The module `Division` holds
the facts about integer division that the proofs use.

## Model

| member | source | states |
|---|---|---|
| Documents.Split | train.py:21 | `split(" ")` always yields at least one piece, and no piece contains the separator |
| Documents.JoinSplit | train.py:21 | splitting loses nothing: joining the pieces with the separator gives back the text |
| Documents.SplitJoin | train.py:21 | the converse: splitting a join of separator-free pieces gives back those pieces |
| Documents.PieceCount | train.py:21 | the piece count is the number of spaces plus one, so an empty text counts as 1 |
| Documents.MaxDocumentLength | train.py:21 | `max_document_length` is absent exactly for an empty training set (where `max` raises); otherwise it is at least 1, no text has more pieces, and some text has exactly that many |
| Documents.MaxDocumentLengthCountsSpaces | train.py:21 | the maximum document length is one more than the largest number of spaces in a training text |
| Embeddings.Broadcast | train.py:49-50 | the stored row has `dim_proj` entries, equals the source vector when widths agree, and otherwise repeats the vector's only entry |
| Embeddings.Position | train.py:50 | the row Python's `vectors[k]` reads lies inside `vectors` and is `k` itself or, for a negative `k`, `len + k` |
| Embeddings.PositionIsUnique | train.py:50 | that row is the only position congruent to `k` modulo the length |
| Embeddings.OverlaySource | train.py:42-53 | one source's pass succeeds exactly when every known token names an existing vector (a negative index counting from the end) that fits the row; the rows of known tokens become the source's vectors and all other rows keep their value; the count is the number of matched vocabulary positions; the mapping's keys are exactly the matched vector indices as written, each mapped to the last position that reached it |
| Embeddings.InitEmbeddings | train.py:35-54 | succeeds exactly when there are no more sources than word-vector types and each source aligns; the result has shape (types + 1) × vocabulary × `dim_proj`; row (k, i) is source k's vector for every token source k knows; every other row, and the whole extra slice, keeps its initial value; there is one report per source, in order, with the count and mapping above; with no sources the initial tensor comes back unchanged |
| Embeddings.CountIsKnownTokens | train.py:42-48 | for a duplicate-free vocabulary, the printed count is the number of vocabulary tokens present in `word_to_index` |
| Embeddings.MappingsInvertIndex | train.py:43-47 | for a duplicate-free vocabulary and an injective `word_to_index`, the mapping sends `word_to_index[token]` back to the token's vocabulary position |
| Embeddings.MappingsSizeIsCount | train.py:43-48 | under the same conditions the mapping has exactly as many entries as the printed count |
| Embeddings.CatFishExample | train.py:44-50 | the example source {cat: [1,0], dog: [0,1]} over the vocabulary [cat, fish] sets cat's row to [1,0], keeps fish's row, and counts one match |
| Embeddings.NegativeIndexExample | train.py:44-50 | a token with index -1 takes the last of two vectors, and the mapping records it under the key -1 |
| DevEvaluation.Chunked | train.py:154-160 | the reference split: no chunks exactly for an empty dev set, and every chunk holds between 1 and `dev_minibatch` examples |
| DevEvaluation.SplitIntoChunks | train.py:154-160 | the chunk loop (start at 0, step `dev_minibatch`, take the tail when the next boundary does not stay below the length) produces the chunk sequence `Chunked` |
| DevEvaluation.ChunkedFlattens | train.py:154-160 | the chunks concatenate back to the dev set |
| DevEvaluation.FlattenSize | train.py:176-180 | the chunk sizes used as weights sum to the size of what the chunks cover, which is the divisor of the average |
| DevEvaluation.ChunkedCount | train.py:154 | there are ceil(len / `dev_minibatch`) chunks, one per start 0, m, 2m, ... below the length |
| DevEvaluation.ChunkedSizes | train.py:154-160 | every chunk but the last holds `dev_minibatch` examples, and the last holds 1 to `dev_minibatch` |
| DevEvaluation.ChunkedAt | train.py:154-160 | chunk j starts at j·m, below the length, and is `x[j·m : min(j·m + m, len(x))]` |
| DevEvaluation.DevStep | train.py:149-208 | split-mode evaluation fails exactly for a non-positive chunk size or an empty dev set; otherwise its chunks concatenate to the dev set, their sizes sum to its length, all but the last have the chunk size, and the summary pass runs on the last chunk; whole-set mode makes one pass over the dev set |
| Schedule.PyMod | train.py:146 | Python's (and NumPy's) remainder lies between 0 and the divisor, on the divisor's side; it differs from the dividend by a multiple of the divisor; it is 0 exactly when Dafny's Euclidean remainder is |
| Schedule.TracedIteration | train.py:114 | an iteration is traced exactly when it completes a hundred iterations, i.e. `iter_ + 1` is a multiple of 100 |
| Schedule.EvaluationAt | train.py:146 | the dev set is evaluated exactly when `evaluate_every` leaves no remainder of the step, and at every step when `evaluate_every` is 0 (NumPy yields remainder 0) |
| Schedule.TrainStep | train.py:114-147 | one `train_step` traces when `iter_ + 1` is a multiple of 100, saves exactly when the step equals `save_step`, and evaluates when the interval is 0 or divides the step |
| Schedule.EvaluatesAtMultiples | train.py:146 | for a non-zero `evaluate_every` the dev set is evaluated exactly when it divides the step counter, whatever the signs; for 0 it is evaluated at every step |
| Schedule.StopAfter | train.py:146-147 | when every evaluation raises, the batches run are those up to and including the first that evaluates; none before it evaluates |
| Schedule.RunActions | train.py:97-147 | a run makes one decision set per batch, each that of `train_step` for its iteration and reported step; as the loop at lines 266-268 calls it; it gets through every batch when `dev_step` succeeds; when `dev_step` raises, it ends with the first evaluating step and no earlier step evaluates |
| Schedule.FailingEvaluationEndsRun | train.py:146-154 | with a raising `dev_step`, no batch after an evaluating step is run |
| Schedule.ZeroMinibatchStopsFirstStep | train.py:146-154 | with `split_dev`, `dev_minibatch` = 0 and `evaluate_every` = 1, only the first of three batches runs |
| Schedule.RunDecisions | train.py:114-147 | every step a run gets through is traced exactly when i = 100q + 99; it saves exactly when its step equals `save_step`; it evaluates exactly when `evaluate_every` is 0 or divides its step |
| Schedule.TracedCount | train.py:114 | of the n iterations a run gets through, exactly n / 100 take the traced path |
| Schedule.SavedAtMostOnce | train.py:133-136 | with a strictly rising step counter, the embeddings are saved once if the run reaches `save_step` and never otherwise |
| Schedule.EvaluationCount | train.py:146-147 | when the step counter advances by one per iteration from `first`, the dev set is evaluated once per multiple of `evaluate_every` among the steps the run gets through |

## Left out

- The vocabulary processor: fitting, transforming, padding and ordering the vocabulary (train.py:22-32). It is library code that is not part of this model. The vocabulary is an input.
- The random initial tensor (`np.random.randn` scaled by `std_dev`, train.py:36). It is a parameter whose shape is required. Statistical properties of the random draw are not modelled.
- All graph and session work: `sess.run`, feed dictionaries, the `RNN` model, savers, summary writers and projector configuration. These are calls into code that is not part of this model. The step counter the model reports is a parameter (`steps`).
- `save_embedding` (train.py:223-251) and the metadata file it writes. This is file I/O and framework calls. The model only records the decision to save.
- Loss and accuracy arithmetic and the size-weighted averages (train.py:176-193). These are floating point. The model states the weights instead: the chunk sizes, and the fact that they sum to the dev-set size.
- Printing, timestamps, the output directory and `config.json` (train.py:51-52, 64-79, 140-142, 256-263). The model keeps only the print at lines 51-52, because its indexing can raise.
- The RuntimeWarning NumPy prints for `current_step % 0` (train.py:146). It is output only; the model keeps the remainder 0 that NumPy returns.
- `process_utils.batch_iter` (train.py:258-259). It is not part of this model, so a run is given by the sequence of reported steps, one per batch.
- DevEvaluation.DevStep: models the dev examples as one sequence of (input, label) pairs. The source slices inputs and labels separately with the same bounds, so the two agree when both have the same length.
- Embeddings.InitEmbeddings: the model does not keep the partly overwritten tensor of a run that raises, because the exception ends the run.
