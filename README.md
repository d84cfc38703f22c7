# ragvix chunking and retrieval metrics in Dafny

This project models the two pieces of ragvix that hold its algorithmic content.

- **The sliding-window chunker** `src/ragvix/index/chunker.py` (module `Chunker`).
  - `chunk_text` strips the text with Python's `str.strip`.
  - It then walks the stripped text in steps of `max(chunk_size - overlap, 1)`.
  - At each step it cuts a clamped window of at most `chunk_size` characters.
  - It stops at the first window shorter than a tenth of `chunk_size`.
  - Every chunk records its index and its offsets in the stripped text.
  - `chunk_papers_from_metadata` turns paper records into chunks. A paper without an abstract is skipped. A long abstract is chunked when `chunk_abstracts` is set. Any other abstract becomes a single unstripped chunk that carries author, category and date fields.
- **The retrieval metrics** `src/ragvix/eval/retrieval_eval.py` (module `RetrievalEval`).
  - Recall@k and Precision@k are computed over the *set* of the top-k retrieved arXiv ids.
  - `evaluate_retrieval` averages them, per cut-off, over all retrieval results.
  - `SEED_EVALUATION_DATA` is the fixture.

The loops of the source are methods, each proved against a functional specification:

| method | proved against |
|---|---|
| `ChunkText` | `Chunks` |
| `ChunkPapers` | `PapersChunks` |
| `Evaluate` | `Mean(Scores(...))` for every metric key |

The lemmas then state what the source promises about those specifications.

Modules and files:

- `wrappers.dfy` (`Wrappers`): `Option`, which stands for `dict.get`.
- `seqs.dfy` (`Seqs`): concatenation of mapped sequences, which models `extend` in a loop, and `Repeat`.
- `chunker.dfy` (`Chunker`).
- `retrieval_eval.dfy` (`RetrievalEval`).

Modelling choices:

- **Text and whitespace.** Text is `seq<char>`. `IsSpace` is exactly the set of code points for which Python's `str.isspace` holds.
- **The cut-off.** The source tests `len(chunk) < chunk_size * 0.1` against a float product. The model tests the exact `10 * len < chunk_size`.
- **Ratios and means.** These are exact `real`s, not IEEE doubles.
- **Offsets.** They are relative to the stripped text, as in the code. `ChunkInOriginal` relates them to the unstripped input.
- **Metric keys.** The dictionary keys `f"recall@{k}"` and `f"precision@{k}"` are the datatype `MetricKey(metric, k)`.
- **Retrieval results.** A result is its query plus the projection `[hit["metadata"]["arxiv_id"] for hit in result.get("results", [])]`, kept as a sequence of ids.

Edge cases of `chunk_text`, as the code behaves:

- A text whose stripped form is shorter than a tenth of `chunk_size` yields no chunk at all (`ShortDocumentDropped`, `ChunksEmptyIff`).
- Offsets index the stripped text (`ChunkFields`); `ChunkInOriginal` maps them back to the input.
- The chunks cover the stripped text up to the end of the last emitted chunk. A dropped short tail is not covered (`ChunksCover`).
- Consecutive chunks share `len(chunk) - step` characters. This equals `overlap` only for full-length windows when `0 <= overlap < chunk_size` (`ConsecutiveChunksOverlap`).

## Model

| member | source | states |
|---|---|---|
| Chunker.StripSpec | src/ragvix/index/chunker.py:31-35 | `strip` returns the slice starting at the leading-whitespace count, with only whitespace outside it and none at either end; it is empty exactly when the text is all whitespace |
| Chunker.StripBlank | src/ragvix/index/chunker.py:35 | text whose leading whitespace run is the whole text is all whitespace and strips to the empty string |
| Chunker.StripNonBlank | src/ragvix/index/chunker.py:35 | text with a non-whitespace character strips to the non-empty slice from its first to its last non-whitespace character, and is not all whitespace |
| Chunker.StripUnpadded | src/ragvix/index/chunker.py:35 | text with no whitespace at either end is unchanged by `strip` |
| Chunker.ChunkText | src/ragvix/index/chunker.py:10-63 | the loop (strip, step, clamped window, early `break`, metadata, append) returns exactly `Chunks(text, ...)` |
| Chunker.ChunkLoopAppends | src/ragvix/index/chunker.py:41-60 | the accumulating loop from position i appends exactly the remaining windows, indexed from `len(chunks)` |
| Chunker.ChunkLoopStep | src/ragvix/index/chunker.py:42-60 | a window that is long enough is appended with index `len(chunks)`, start `i` and end `i + len(window)`, and the loop continues at `i + step` |
| Chunker.ChunkLoopStops | src/ragvix/index/chunker.py:45-46 | a too-short window ends the loop with nothing appended |
| Chunker.ChunkLoopComputesChunks | src/ragvix/index/chunker.py:35-63 | the loop started on the stripped text with an empty list yields `Chunks` |
| Chunker.BlankTextHasNoChunks | src/ragvix/index/chunker.py:31-33 | empty or all-whitespace text yields no chunks |
| Chunker.ChunksEmptyIff | src/ragvix/index/chunker.py:31-46 | the result is empty if and only if the text is all whitespace or the first window, of length `min(chunk_size, len(stripped))`, is shorter than a tenth of `chunk_size` |
| Chunker.ChunkFields | src/ragvix/index/chunker.py:39-57 | chunk k has `chunk_index == k` and `char_start == k * step < len(stripped)`, with `char_end == min(char_start + chunk_size, len(stripped))`; its text is `stripped[char_start:char_end]`; `char_end - char_start == chunk_size field == len(text) <= chunk_size` and `10 * len(text) >= chunk_size`; its labels are the given ones and it has no author, category or date field |
| Chunker.ChunkInOriginal | src/ragvix/index/chunker.py:35-56 | each chunk's text is the slice of the unstripped input at its offsets shifted by the leading-whitespace count |
| Chunker.ChunkStartsIncrease | src/ragvix/index/chunker.py:39-55 | chunk starts are strictly increasing |
| Chunker.ChunksArePrefixOfWindows | src/ragvix/index/chunker.py:41-46 | the output is a prefix of the full window sequence, and the first window left out is too short |
| Chunker.ConsecutiveChunksOverlap | src/ragvix/index/chunker.py:39-42 | for `chunk_size >= 1` and `overlap >= 0`: `step <= len(chunk k)`; chunk k+1 starts `step` after chunk k, no later than chunk k's end; and chunk k's text from offset `step` on is a prefix of chunk k+1's text |
| Chunker.ChunkCountBound | src/ragvix/index/chunker.py:41 | there are at most `ceil(len(stripped) / step)` chunks, and every `char_start < len(stripped)` |
| Chunker.ChunksCover | src/ragvix/index/chunker.py:39-46 | for `chunk_size >= 1` and `overlap >= 0`, every position before the last chunk's end lies in some chunk; the last chunk ends at `len(stripped)` unless a too-short window was dropped |
| Chunker.SmallExample | src/ragvix/index/chunker.py:39-57 | `chunk_text("abcdef", 3, 1)` gives "abc", "cde" and "ef", the last at offsets 4 to 6 |
| Chunker.ShortDocumentDropped | src/ragvix/index/chunker.py:45-46 | a 13-character document chunked with the default size 1200 and overlap 120 gives no chunk |
| Chunker.ChunkPapers | src/ragvix/index/chunker.py:66-120 | the loop over papers (skip, `chunk_text` and `extend`, or whole-abstract `append`) returns exactly `PapersChunks(papers, ...)` |
| Chunker.PapersChunksAppend | src/ragvix/index/chunker.py:85-117 | the chunks of `a + b` are those of `a` followed by those of `b` |
| Chunker.PapersChunksCons | src/ragvix/index/chunker.py:85-117 | the first paper's contribution comes first |
| Chunker.NoAbstractNoChunks | src/ragvix/index/chunker.py:86-87 | a paper whose abstract is missing or empty contributes no chunks |
| Chunker.WholeAbstractContribution | src/ragvix/index/chunker.py:89-117 | an abstract of length `<= chunk_size`, or any abstract when `chunk_abstracts` is off, gives exactly one chunk. Its text is the unstripped abstract, with index 0, start 0 and `char_end == chunk_size field == len(abstract)`. Its section is "abstract". Its arxiv_id and title default to "". Its authors and categories default to [] and its date to "" |
| Chunker.LongAbstractContribution | src/ragvix/index/chunker.py:89-99 | a long abstract with `chunk_abstracts` set contributes exactly `chunk_text(abstract, chunk_size, overlap, arxiv_id, title, "abstract")`. Chunk k of it has section "abstract" and index k, and its text is the slice of the unstripped abstract past its leading whitespace |
| Chunker.PaddedAbstractDropped | src/ragvix/index/chunker.py:89-99 | the length test uses the unstripped abstract, so a long abstract whose stripped text is shorter than a tenth of `chunk_size` contributes nothing |
| Chunker.WholeAbstractCount | src/ragvix/index/chunker.py:85-117 | with `chunk_abstracts` off, the number of chunks equals the number of papers with a non-empty abstract |
| RetrievalEval.RecallAtK | src/ragvix/eval/retrieval_eval.py:10-29 | recall lies in [0, 1], and is 0 when the relevant set is empty |
| RetrievalEval.PrecisionAtK | src/ragvix/eval/retrieval_eval.py:32-51 | precision lies in [0, 1], and is 0 when the top-k prefix is empty |
| RetrievalEval.RecallOneIff | src/ragvix/eval/retrieval_eval.py:28-29 | for a non-empty relevant set, recall is 1 if and only if every relevant id is in the top k |
| RetrievalEval.RecallZeroIff | src/ragvix/eval/retrieval_eval.py:25-29 | recall is 0 if and only if the relevant set is empty or none of its ids is in the top k |
| RetrievalEval.PrecisionOneIff | src/ragvix/eval/retrieval_eval.py:50-51 | for a non-empty top k, precision is 1 if and only if every top-k id is relevant |
| RetrievalEval.PrecisionZeroIff | src/ragvix/eval/retrieval_eval.py:47-51 | precision is 0 if and only if the top k is empty or holds no relevant id |
| RetrievalEval.OnlyTopKSetMatters | src/ragvix/eval/retrieval_eval.py:28-50 | two lists whose top-k prefixes have the same set of ids get the same recall and precision, whatever their order and repetitions |
| RetrievalEval.IdsBeyondKIgnored | src/ragvix/eval/retrieval_eval.py:28-50 | ids after position k affect neither metric |
| RetrievalEval.RepeatedIdCountedOnce | src/ragvix/eval/retrieval_eval.py:50-51 | `["x", "x"]` has precision@2 equal to 1 for `{"x"}`, because the denominator counts distinct ids and not k; its recall@2 for `{"x", "y"}` is 1/2 |
| RetrievalEval.RecallMonotone | src/ragvix/eval/retrieval_eval.py:28-29 | for a fixed list and relevant set, recall@k does not decrease as k grows |
| RetrievalEval.PrecisionNotMonotone | src/ragvix/eval/retrieval_eval.py:50-51 | precision@k can fall as k grows: it is 1 at k = 1 and 1/2 at k = 2 for `["a", "b"]` and `{"a"}` |
| RetrievalEval.AbsentQueryScoresZero | src/ragvix/eval/retrieval_eval.py:25-75 | a query absent from the ground truth scores 0 on both metrics |
| RetrievalEval.Evaluate | src/ragvix/eval/retrieval_eval.py:54-89 | there is a `recall@k` and a `precision@k` key for exactly the k in `k_values`. Each value is the mean over all results of that result's score (0 with no results), which lies in [0, 1]. Duplicate k values are appended to the same list and do not change the mean |
| RetrievalEval.EmptyLists | src/ragvix/eval/retrieval_eval.py:69-70 | the initial dictionary has exactly the recall and precision keys of `k_values`, each mapped to an empty list |
| RetrievalEval.AppendScores | src/ragvix/eval/retrieval_eval.py:77-82 | the inner loop keeps the keys, and appends to each key's list its score once for every occurrence of its cut-off in `k_values` |
| RetrievalEval.Averages | src/ragvix/eval/retrieval_eval.py:84-87 | the averaging loop keeps the keys, and maps each to the mean of its list, or 0 for an empty list |
| RetrievalEval.AccumulatedMeans | src/ragvix/eval/retrieval_eval.py:69-87 | lists that hold every result's score a positive number of times have the mean of the per-result scores |
| RetrievalEval.MeanStretch | src/ragvix/eval/retrieval_eval.py:77-87 | repeating every value the same positive number of times leaves the mean unchanged |
| RetrievalEval.AveragesInUnitInterval | src/ragvix/eval/retrieval_eval.py:84-87 | every reported average lies in [0, 1], and is 0 with no results |
| RetrievalEval.SeedExample | src/ragvix/eval/retrieval_eval.py:93-106 | on the fixture, top-3 hits of "contrastive learning" made of two chunks of one relevant paper and one unrelated paper give recall@3 = 1/2 and precision@3 = 1/2 |

## Left out

- `src/ragvix/index/faiss_store.py`, `src/ragvix/retriever/retriever.py` and `src/ragvix/rag/pipeline.py` are not part of this model. They wrap embedding, FAISS search, floating-point scores and persistence to disk.
- `run_seed_evaluation` (src/ragvix/eval/retrieval_eval.py:109-143) is not modelled: it calls a live retriever and swallows its exceptions. Only its fixture `SEED_EVALUATION_DATA` is modelled.
- The ingest, parsing, I/O, configuration, logging and script modules are not part of this model. They are network, PDF, file system, environment and CLI code.
- Logging calls in both core files are left out.
- IEEE floating point is not modelled. The `chunk_size * 0.1` threshold is the exact `10 * len < chunk_size`, and divisions and means are exact rationals.
- The insertion order of the metrics dictionaries is not modelled: a Dafny `map` has no order.
- The mapping from hit dictionaries to ids (src/ragvix/eval/retrieval_eval.py:74) is done by the caller: a `RetrievalResult` already holds the id sequence.
- A result without a `"query"` key, which raises `KeyError` in the source, is not modelled: every `RetrievalResult` has a query.
- Chunker.ChunkText and Chunker.ChunkPapers: `chunk_size` is a `nat`. A negative `chunk_size` is not modelled. In `chunk_text` Python slices would then count from the end, and in `chunk_papers_from_metadata` the test `len(abstract) > chunk_size` would always hold. `chunk_size = 0` is modelled as the source behaves.
- Default arguments are explicit parameters of every member. The source's defaults are the constants `Chunker.DefaultChunkSize`, `Chunker.DefaultOverlap`, `Chunker.DefaultSection`, `Chunker.DefaultChunkAbstracts`, `RetrievalEval.DefaultK` and `RetrievalEval.DefaultKValues`.
- RetrievalEval.RecallAtK, RetrievalEval.PrecisionAtK and RetrievalEval.Evaluate: cut-offs are `nat`. A negative `k`, for which `retrieved_ids[:k]` drops the last ids, is not modelled.
- Chunker.ConsecutiveChunksOverlap and Chunker.ChunksCover require `chunk_size >= 1` and `overlap >= 0`. With a negative overlap the step exceeds the window, and the chunks leave gaps.
- Paper records keep only the fields the chunker reads. `published` is a string and `authors`/`categories` are lists of strings. Other value types that a JSON record could hold there are not modelled.
