# Retrieval core of the RAG demos, in Dafny

This project models the two pieces of real logic in the RAG tutorial demos and proves
properties about them:

- **Chat with PDF** (`Day_05_Chat_with_PDF/main.py`). `split_text` cuts a text into
  overlapping windows of `chunk_size` characters, each starting `chunk_size - overlap`
  after the previous one. `find_best_chunk` scores every chunk against the query, sorts the
  scored chunks by descending score and returns element 0.
- **Hand-rolled vector store** (`Day_04_Vector_Store/main.py`). `cosine_similarity` has a
  zero-magnitude guard. The ingestion loop fills the store with one `{text, vector}` entry per
  document. `search_vector_store` scores every entry against the query, stable-sorts the
  results by descending score and reports `results[0]` as the winner.

The project has three modules, one file each:

- `Ranking` (`ranking.dfy`) holds what both retrieval steps share.
  - `ScoredText` is one `{"text", "score"}` entry.
  - `Lookup` is the outcome of reading element 0: the element, or Python's `IndexError`.
  - `SortByScore` is `list.sort(key=score, reverse=True)`. The model proves it sorted, a
    permutation and stable. It also proves that every stable descending sort gives the same
    list, so the result is the one CPython's Timsort produces.
  - `FirstBest` is an independent reference definition of the winner: the earliest entry
    with the largest score.
- `VectorStore` (`vector_store.dfy`) holds the dot product, the magnitude, the cosine
  similarity and its guard, the Cauchy-Schwarz inequality, the ingestion loop
  (`BuildVectorStore`) and the search (`SearchVectorStore`).
- `ChatWithPdf` (`chat_with_pdf.dfy`) holds three things:
  - Python slicing, modelled exactly, including negative and out-of-range bounds.
  - The chunker loop (`SplitText`), which is proved equal to a closed form (`Chunks`). All
    the chunk properties are proved about that closed form.
  - The retrieval loop (`FindBestChunk`).

The loops of the source are `method`s with loop invariants: the `while` of `split_text` and
the `for` loops of ingestion, search and `find_best_chunk`. Each method's `ensures` ties its
result to the specification functions, and the lemmas are stated about those functions.

Numbers are exact `real`s. Three outside services are function parameters:

- `embed: string -> seq<real>` stands for the embedding service.
- `score: string -> real` stands for the score of a chunk in `find_best_chunk`: an embedding
  round trip and a cosine.
- `sqrt: real -> real` stands for the square root inside `np.linalg.norm`. Lemmas that need
  the real square root require `IsSqrt(sqrt)`.

The global `vector_store` list of the Day 4 script is an explicit parameter of the search.

### Behaviour of the code worth knowing

- The search takes no `k` argument. It scores every entry, sorts the whole list and reads
  `results[0]`.
- An empty store or an empty chunk list makes `results[0]` or `chunk_data[0]` raise
  `IndexError`. The model returns `Lookup.IndexError` in that case.
- Store entries carry no ids, and nothing checks vector dimensions. A dimension mismatch makes
  `np.dot` raise.
- For exact reals the cosine lies in [-1, 1] (`CosineBounds`), is exactly 1 for a non-zero
  vector with itself (`CosineSelf`) and is 0.0 whenever either vector is all zeros
  (`CosineZeroGuard`).
- The comment above `cosine_similarity` gives its range as "0 to 1". That holds only when the
  dot product is non-negative or a vector is zero (`CosineSign`). Opposite vectors give -1
  (`OppositeVectors`). The model follows the code, whose range is [-1, 1].

## Model

| member | source | states |
|---|---|---|
| Ranking.SortByScore | Day_04_Vector_Store/main.py:70 | The sorted list has the same length, is non-increasing in score and is a permutation (same multiset) of the input. |
| Ranking.InsertSorted | Day_04_Vector_Store/main.py:70 | Placing an entry into a descending list keeps it descending (the step the sort is built from). |
| Ranking.SortByScoreStable | Day_04_Vector_Store/main.py:70 | Sorting keeps, for every score value, the entries with that score in their original order (`list.sort` is stable also with `reverse=True`). |
| Ranking.StableSortUnique | Day_04_Vector_Store/main.py:70 | Two descending lists with the same entries of each score in the same order are equal. |
| Ranking.SortByScoreIsTheStableSort | Day_04_Vector_Store/main.py:70 | Any descending list that keeps the equal-score order of `s` is `SortByScore(s)`, whatever algorithm produced it. |
| Ranking.FirstBest | Day_04_Vector_Store/main.py:76 | Reference winner: an index whose score is at least every other score, and every earlier index scores strictly less. |
| Ranking.SortedHeadIsFirstBest | Day_05_Chat_with_PDF/main.py:59-60 | Element 0 after the stable descending sort is the earliest entry with the largest score. |
| Ranking.WithScoreMembers | Day_04_Vector_Store/main.py:70 | The equal-score subsequence holds exactly the entries with that score, so it is a faithful measure of stability. |
| VectorStore.Dot | Day_04_Vector_Store/main.py:33 | `np.dot` of two equal-length vectors. No ensures of its own; its properties are the lemmas DotSymmetric, SumOfSquaresZero, DotCombineLeft, DotWithZero and CauchySchwarz. |
| VectorStore.Norm | Day_04_Vector_Store/main.py:36-37 | `np.linalg.norm`: `sqrt` of `a . a`. No ensures of its own; NormZeroIff and NormSquared state its properties. |
| VectorStore.CosineSimilarity | Day_04_Vector_Store/main.py:31-43 | `cosine_similarity` with its zero-magnitude guard. No ensures of its own; CosineZeroGuard, CosineSymmetric, CosineSelf and CosineBounds state its properties. |
| VectorStore.DotSymmetric | Day_04_Vector_Store/main.py:33 | `np.dot(a, b) == np.dot(b, a)`. |
| VectorStore.SumOfSquaresZero | Day_04_Vector_Store/main.py:36-37 | `a . a` is never negative and is 0 exactly when every component of `a` is 0. |
| VectorStore.NormZeroIff | Day_04_Vector_Store/main.py:36-40 | With the real square root, the magnitude is non-negative and is 0 exactly for the zero vector, so the guard fires exactly for zero vectors. |
| VectorStore.CosineZeroGuard | Day_04_Vector_Store/main.py:39-43 | If either vector is all zeros (both included) the similarity is 0.0; otherwise both magnitudes are positive and the similarity is the dot product over their product. |
| VectorStore.CosineSymmetric | Day_04_Vector_Store/main.py:31-43 | `cosine_similarity(a, b) == cosine_similarity(b, a)`. |
| VectorStore.CosineSelf | Day_04_Vector_Store/main.py:31-43 | A non-zero vector has similarity exactly 1 to itself. |
| VectorStore.CosineSign | Day_04_Vector_Store/main.py:28-43 | With the real square root, the similarity is non-negative exactly when the dot product is non-negative or one of the vectors is zero. |
| VectorStore.OppositeVectors | Day_04_Vector_Store/main.py:28-43 | The vectors `[1.0]` and `[-1.0]` have similarity -1.0, below the range "0 to 1" that the comment above `cosine_similarity` gives. |
| VectorStore.DotCombineLeft | Day_04_Vector_Store/main.py:33 | The dot product is linear in its first argument: `(x a - y b) . w == x (a . w) - y (b . w)`. |
| VectorStore.ExpandCombine | Day_04_Vector_Store/main.py:33 | The squared length of `x a - y b` is `x^2 (a . a) - 2xy (a . b) + y^2 (b . b)`. |
| VectorStore.DotWithZero | Day_04_Vector_Store/main.py:33 | The dot product with a zero vector is 0. |
| VectorStore.CauchySchwarz | Day_04_Vector_Store/main.py:33-37 | `(a . b)^2 <= (a . a)(b . b)` for all equal-length vectors. |
| VectorStore.CosineBoundsNonZero | Day_04_Vector_Store/main.py:43 | Between two non-zero vectors, `dot / (norm_a * norm_b)` lies in [-1, 1]. |
| VectorStore.CosineBounds | Day_04_Vector_Store/main.py:31-43 | With the real square root, the similarity of any two vectors lies in [-1, 1]. |
| VectorStore.BuildVectorStore | Day_04_Vector_Store/main.py:98-109 | The store has one entry per document, in document order: entry `i` holds `documents[i]` and `embed(documents[i])`. |
| VectorStore.ScoreStore | Day_04_Vector_Store/main.py:58-66 | One result per store entry, in store order, carrying the entry's text and `cosine_similarity(query_vec, entry.vector)`. |
| VectorStore.SearchVectorStore | Day_04_Vector_Store/main.py:53-76 | The ranked list is as long as the store, non-increasing, a permutation of the scored entries and keeps store order among equal scores. The winner is `IndexError` exactly when the store is empty. Otherwise it is `ranked[0]`, a store entry at least as similar as every other entry and strictly more similar than every earlier one. |
| VectorStore.TopResultIsFirstBest | Day_04_Vector_Store/main.py:70-76 | Element 0 of the sorted results is entry `k` of the store, with the largest cosine, and every entry before `k` has a smaller cosine. |
| ChatWithPdf.SliceBound | Day_05_Chat_with_PDF/main.py:30 | A Python slice bound lands in `0..len`: unchanged when inside, clamped to `len` when past the end. |
| ChatWithPdf.Slice | Day_05_Chat_with_PDF/main.py:30 | Python's `s[lo:hi]` is `s[lo..hi]` whenever `0 <= lo <= hi <= len(s)`. |
| ChatWithPdf.DropFirstIsSlice | Day_05_Chat_with_PDF/main.py:30 | Python's `c[k:]` (`DropFirst`) is the slice `c[k:len(c)]`, the same slicing as `text[start:end]`, so the overlap and reassembly properties rest on the slice model of the chunker. |
| ChatWithPdf.NumChunks | Day_05_Chat_with_PDF/main.py:28-31 | How many times the `while` loop runs: none exactly when the text is empty. NumChunksBounds and NumChunksIsCeiling give the count `ceil(len / step)`. |
| ChatWithPdf.Chunks | Day_05_Chat_with_PDF/main.py:25-32 | The closed form of the list `split_text` returns. No ensures of its own; ChunkCount, ChunkIsWindow, ChunksAreWindows, ChunkLengths, ConsecutiveChunksOverlap and ReassembleChunks state its properties. |
| ChatWithPdf.SplitText | Day_05_Chat_with_PDF/main.py:25-32 | An empty text gives `[]` for any sizes. When `overlap < chunk_size` the result is exactly `Chunks(text, chunk_size, overlap)`: chunk `i` is the slice at `i * step` for every `i < NumChunks`. |
| ChatWithPdf.NumChunksBounds | Day_05_Chat_with_PDF/main.py:28-31 | The chunk starts cover the text: `count * step >= len`, and the last start `(count - 1) * step` is inside a non-empty text. |
| ChatWithPdf.NumChunksIsCeiling | Day_05_Chat_with_PDF/main.py:26-32 | The loop runs `ceil(len / step)` times. |
| ChatWithPdf.ChunkCount | Day_05_Chat_with_PDF/main.py:26-32 | `ceil(len(text) / (chunk_size - overlap))` chunks, and the list is empty exactly when the text is empty. |
| ChatWithPdf.ChunkStartsInside | Day_05_Chat_with_PDF/main.py:28 | Every chunk starts inside the text (`0 <= i * step < len(text)`). |
| ChatWithPdf.ChunkIsWindow | Day_05_Chat_with_PDF/main.py:28-30 | Chunk `i` is `text[i * step : min(i * step + chunk_size, len(text))]`, a non-empty range. |
| ChatWithPdf.ChunksAreWindows | Day_05_Chat_with_PDF/main.py:28-30 | Every chunk of the list is that window. |
| ChatWithPdf.ChunkLengths | Day_05_Chat_with_PDF/main.py:28-30 | Every chunk is non-empty and at most `chunk_size` long. |
| ChatWithPdf.ConsecutiveChunksOverlap | Day_05_Chat_with_PDF/main.py:29-31 | `chunks[i][step:]` is a prefix of `chunks[i + 1]`. With `overlap >= 0` chunk `i` is at least `step` long and the shared part is `overlap` characters long when chunk `i` is full length; with a negative overlap the shared part is empty. |
| ChatWithPdf.RedundantFinalChunk | Day_05_Chat_with_PDF/main.py:26-32 | With the defaults, a 1000-character text gives two chunks: the whole text and its last 100 characters, which lie inside the first chunk. |
| ChatWithPdf.ReassembleChunks | Day_05_Chat_with_PDF/main.py:25-32 | With `0 <= overlap < chunk_size`, `chunks[0]` followed by `chunks[j][overlap:]` for every `j >= 1` is exactly the text. |
| ChatWithPdf.ReassembleWindows | Day_05_Chat_with_PDF/main.py:25-32 | Any list of windows of the text with these starts that covers the text reassembles to it. |
| ChatWithPdf.ScoreChunks | Day_05_Chat_with_PDF/main.py:45-56 | One `{text, score}` entry per chunk, in chunk order, with the chunk text unchanged. |
| ChatWithPdf.FindBestChunk | Day_05_Chat_with_PDF/main.py:35-60 | `IndexError` exactly when there are no chunks. Otherwise the result is element 0 of the stably sorted entries: a chunk whose score is at least every other chunk's score, and the earliest such chunk. |
| ChatWithPdf.TopChunkIsFirstBest | Day_05_Chat_with_PDF/main.py:59-60 | Element 0 of the sorted entries is chunk `k` with the largest score, and every earlier chunk scores strictly less. |

## Left out

- Network calls: `get_embedding`, `genai.embed_content` and `ask_gemini` are not modelled.
  Embeddings are the parameter `embed`, and Day 5 chunk scores are the parameter `score`.
- Floating point is not modelled: rounding, NaN, infinities and underflow in the norm.
  Arithmetic is exact over `real`.
- `np.linalg.norm`'s square root is the parameter `sqrt`. The bounds, self-similarity and
  zero-guard lemmas assume it is the real square root.
- ChatWithPdf.FindBestChunk: the score of a chunk is taken as given. The unguarded division at
  `Day_05_Chat_with_PDF/main.py:54`, which yields NaN for a zero vector, is outside the model.
- VectorStore.SearchVectorStore: requires every stored vector to have the query's dimension.
  `np.dot` raises `ValueError` on a mismatch, and that error path is not modelled.
- VectorStore.CosineSimilarity: requires equal lengths, for the same `np.dot` reason.
- ChatWithPdf.SplitText: requires `overlap < chunk_size` or an empty text. On a non-empty
  text with `overlap >= chunk_size`, `start` never moves forward (it stays put or moves
  backwards), so the source loop does not terminate.
- ChatWithPdf.ChunkIsWindow, ChatWithPdf.ChunkLengths, ChatWithPdf.ChunksAreWindows and
  ChatWithPdf.ConsecutiveChunksOverlap:
  stated for `chunk_size > 0` only. With `overlap < chunk_size <= 0`, `SplitText` still
  follows Python's negative-bound slicing through `Slice`, but no window property is claimed
  for that case.
- ChatWithPdf.ReassembleChunks: stated for `overlap >= 0`. A negative overlap leaves gaps
  between the chunks.
- The `print` calls, including the listing of results and the `WINNER` line, are not
  modelled; the search reports the ranked list and the winner as results instead.
- `load_pdf` and the interactive question loop of Day 5 are file I/O and console I/O.
- The other demos are not part of this model: ChromaDB, LangChain, Streamlit, chat history,
  text-file RAG and the Day 1 scripts. They are wrappers around libraries and services.
- The chunker's `text` is a string of characters. No PDF text extraction or encoding is
  modelled.
