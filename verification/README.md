# Research Paper Analyzer: chunking and retrieval, modelled in Dafny

Research Paper Analyzer is a Streamlit assistant. It extracts the text of a
research PDF, cuts the text into word windows for summarising, and answers
questions about the document. This project models the deterministic core
behind that and proves what the core promises:

- `pdf_utils.dfy` (module `PdfUtils`):
  - the clean-up of the extracted pages: non-empty pages are joined with
    newlines, every whitespace run becomes one space, and the result is
    stripped;
  - the word-window chunker `chunk_text`.
- `rag_utils.dfy` (module `RagUtils`):
  - the character splitter `split_for_embedding`;
  - `RAGHelper.build_index`, which splits chunks into parts, tags each part
    with its chunk, embeds the parts in batches of three and loads the store;
  - `RAGHelper.retrieve`.
- `embeddings_utils.dfy` (module `EmbeddingsUtils`): `InMemoryVectorStore`,
  an append-only table of vectors and metadata with a top-k search. The
  similarity function is a parameter.
- `keyword_retrieval.dfy` (module `KeywordRetrieval`): the keyword
  retrieval behind the Ask button in `app.py`:
  - the question's lowercased words longer than two characters are the
    keywords;
  - a chunk scores one point per keyword found in it;
  - the scoring chunks are stable-sorted by score, and the best five become
    the numbered contexts of the answer prompt.
- `ai_client.dfy` (module `AiClient`): the retry loop of
  `AIClient.generate_text`, and the response-shape dispatch of
  `AIClient.embed_text`. The HTTP endpoint is a parameter that gives the
  decoded reply to each request.
- `py_text.dfy` (module `PyText`): the Python string built-ins these use.
  These are `str.split()`, `strip`, `lstrip`, `rstrip`, `join`, `lower`,
  `rfind`, the substring test `in` and `str(int)`, over CPython's set of
  `isspace()` characters.
- `outcomes.dfy` (module `Outcomes`): the `Option` and `Result` types. An
  exception the source raises becomes an `Err` value.

Operations that loop or update state in the source are methods. Most of
them are loops proved equal to a specification function, and the listed
properties are lemmas about that function. These are `ChunkText`, through
`ChunkWords`, `CleanPages`, `SplitForEmbedding`, the two loops that collect the pieces,
the keyword loop and the contexts loop. The others are as follows:

- `GenerateText` ends in the state that `FirstSettled` and `Settle` give.
- The store's `Add` has no loop. Its contract gives the new state in terms of
  the old one.
- `TopIndices` and the store's `Search` are specified by relations, since
  the order of equal scores is left open: `RankedByScore` and `Searched`.
- `EmbedBatches` and `RagHelper.BuildIndex` are specified by clauses over
  `Batches`, `EmbedAll` and `Tagged`.

A difference between the documented behaviour of the chunker and its code
is settled by the code. For a text of `n` words with `n <= max_tokens`, the
code gives a single chunk when `overlap >= n`, and also when `overlap <= 0`.
Only `0 < overlap < n` adds a second window `[n - overlap, n)`
(`PdfUtils.ShortTextWindows`).

## Model

| member | source | states |
|---|---|---|
| PdfUtils.NonEmptyPages | pdf_utils.py:9-12 | the kept pages are non-empty, and each non-empty page is kept as often as it occurs while each empty one is dropped |
| PdfUtils.NonEmptyPagesAppend | pdf_utils.py:9-12 | the pages kept from two runs of pages are those of the first run followed by those of the second, so page order is kept |
| PdfUtils.NonEmptyPagesOne | pdf_utils.py:11-12 | a single page is kept exactly when its text is non-empty |
| PdfUtils.Collapse | pdf_utils.py:15 | collapsing never lengthens the text and is empty only for the empty text; every whitespace character left is a space, and no two whitespace characters are adjacent |
| PdfUtils.CleanPages | pdf_utils.py:8-16 | the cleaned text is the kept pages joined by newlines, with whitespace collapsed and stripped: its words are the pages' words, and it has no leading or trailing whitespace and only single spaces between words |
| PdfUtils.CollapseStrip | pdf_utils.py:15 | replacing every whitespace run by one space and stripping gives the words joined by single spaces |
| PdfUtils.JoinNormalized | pdf_utils.py:15 | words joined by single spaces have no edge whitespace and no run of two whitespace characters |
| PdfUtils.SplitJoin | pdf_utils.py:15 | splitting the cleaned text gives back exactly its words |
| PdfUtils.NextStart | pdf_utils.py:33 | the next window start is strictly after the current one, so the loop terminates for any overlap |
| PdfUtils.NextStartBounds | pdf_utils.py:33 | with overlap >= 0 the next start is at most the window end; it equals the end exactly when overlap is 0 or end - overlap does not move past start |
| PdfUtils.WindowsFrom | pdf_utils.py:28-33 | the loop emits no window exactly when start has reached the word count |
| PdfUtils.WindowsBounds | pdf_utils.py:29-31 | every window lies within the words, holds between 1 and max_tokens words, and is short only when it reaches the end |
| PdfUtils.WindowsChain | pdf_utils.py:29-33 | each window starts where the previous one's NextStart puts it, and starts strictly increase |
| PdfUtils.WindowsEnds | pdf_utils.py:28-33 | for overlap >= 0 the first window starts at word 0, the last ends at the last word, and no gap separates consecutive windows |
| PdfUtils.WindowsCover | pdf_utils.py:28-33 | for overlap >= 0 every word index falls inside some window |
| PdfUtils.WindowsAdjacent | pdf_utils.py:33 | with overlap 0 or overlap >= max_tokens each window starts where the previous one ends |
| PdfUtils.WindowsCount | pdf_utils.py:33 | with overlap 0 or overlap >= max_tokens the number of windows c satisfies (c-1)*max_tokens < n <= c*max_tokens, so c = ceil(n/max_tokens) |
| PdfUtils.ChunksPartition | pdf_utils.py:31-33 | with overlap 0 or overlap >= max_tokens the chunks joined by spaces equal the words joined by spaces |
| PdfUtils.ShortTextWindows | pdf_utils.py:29-33 | a text of at most max_tokens words gives one window, or two when 0 < overlap < word count |
| PdfUtils.HundredWordsWindows | tests/test_pdf_utils.py:4-7 | 100 words with max_tokens 50 and overlap 10 give the windows [0,50), [40,90), [80,100), [90,100), at least two chunks |
| PdfUtils.ThirtyWordsWideOverlap | tests/test_pdf_utils.py:10-13 | 30 words with max_tokens 100 and overlap 200 give exactly one window |
| PdfUtils.TrailingWindowRepeats | pdf_utils.py:33 | 30 words with max_tokens 100 and overlap 10 give two windows, the second lying inside the first |
| PdfUtils.WindowsToEnd | pdf_utils.py:29-33 | the corrected loop emits no window exactly when start has reached the word count |
| PdfUtils.WindowsToEndAdvance | pdf_utils.py:29-33 | in the corrected loop every window ends strictly after the previous one; the windows still start at word 0, end at the last word and leave no gap |
| PdfUtils.ThirtyWordsToEnd | pdf_utils.py:29-33 | the corrected loop gives one window for 30 words, max_tokens 100 and overlap 10 |
| PdfUtils.ChunkOf | pdf_utils.py:31 | one window's words joined by single spaces, empty for a window outside the words; ChunksOf and JoinNormalized state its properties |
| PdfUtils.ChunksOf | pdf_utils.py:29-32 | one chunk per window, each the words of its window joined by spaces |
| PdfUtils.ChunkWords | pdf_utils.py:27-34 | the while loop emits exactly the chunks of the windows the start rule produces |
| PdfUtils.ChunkText | pdf_utils.py:21-34 | chunk_text gives the window chunks of the split text; no chunk exactly when the text is blank; each chunk has 1 to max_tokens words |
| PdfUtils.ChunkTextBlank | pdf_utils.py:26-29 | a text has no chunks exactly when it is empty or all whitespace |
| PdfUtils.ChunkTextSizes | pdf_utils.py:26-32 | every chunk of a text holds between 1 and max_tokens words |
| PdfUtils.ChunkSplit | pdf_utils.py:31 | splitting a chunk gives back exactly the words of its window |
| PdfUtils.ChunkWordCounts | pdf_utils.py:30-32 | every chunk has between 1 and max_tokens words |
| PyText.LStrip | rag_utils.py:15 | lstrip removes a whitespace prefix and leaves a visible first character, or nothing when the text is blank |
| PyText.RStrip | rag_utils.py:15 | rstrip removes a whitespace suffix and leaves a visible last character, or nothing when the text is blank |
| PyText.Strip | rag_utils.py:9 | a stripped text is empty or starts and ends with a visible character |
| PyText.StripShape | rag_utils.py:9 | strip never lengthens, leaves visible ends, and is empty exactly for blank text |
| PyText.Split | pdf_utils.py:26 | str.split(): the maximal runs of non-whitespace characters, as a recursive definition; SplitWords, SplitEmpty and SplitJoin state its properties |
| PyText.Join | pdf_utils.py:31 | sep.join(xs), as a recursive definition; JoinNormalized and SplitJoin state its properties |
| PyText.SplitWords | pdf_utils.py:26 | split() gives only non-empty words without whitespace |
| PyText.SplitEmpty | pdf_utils.py:26 | split() gives no words exactly when the text is blank |
| PyText.VisibleStrip | rag_utils.py:9 | stripping removes no visible character |
| PyText.Lower | app.py:120 | lower() keeps the length of the text |
| PyText.Contains | app.py:124 | the substring test holds exactly when the keyword occurs at some position |
| PyText.RFind | rag_utils.py:11 | rfind returns -1 or a position holding the character, with no later occurrence |
| PyText.ShowNat | app.py:136 | a number's decimal form is non-empty, all digits, with no leading zero |
| PyText.ShowNatRoundTrip | app.py:136 | reading the decimal form back gives the number |
| RagUtils.CutPos | rag_utils.py:11-13 | the cut is at the last space before max_chars, or exactly at max_chars when that prefix holds no space |
| RagUtils.EmbedParts | rag_utils.py:9-17 | the pieces of the stripped text as the loop cuts them, defined by recursion on the remaining text; EmbedPartsShape, EmbedPartsVisible and SplitForEmbeddingFirstCut state its properties |
| RagUtils.SplitForEmbedding | rag_utils.py:6-18 | the loop returns the parts of the stripped text |
| RagUtils.EmbedPartsShape | rag_utils.py:10-17 | every part is non-empty, at most max_chars long and starts with a visible character |
| RagUtils.EmbedPartsVisible | rag_utils.py:10-17 | the parts hold the same visible characters, in the same order, as the text |
| RagUtils.SplitForEmbeddingVisible | rag_utils.py:9-17 | dropping whitespace from the concatenated parts gives the input without whitespace |
| RagUtils.SplitForEmbeddingBlank | rag_utils.py:9-18 | there are no parts exactly when the input is blank |
| RagUtils.SplitForEmbeddingShort | rag_utils.py:9-18 | a stripped input of at most max_chars characters is the single part |
| RagUtils.SplitForEmbeddingFirstCut | rag_utils.py:11-14 | the first part of a long text ends at the last space before max_chars, or at max_chars when there is none |
| RagUtils.PieceLists | rag_utils.py:36-37 | one part list per chunk, in chunk order |
| RagUtils.TagPieces | rag_utils.py:39-44 | each part of a chunk is recorded with that chunk's id and its own text |
| RagUtils.TagTexts | rag_utils.py:36-44 | the metadata list is as long as the part list and its j-th text is the j-th part |
| RagUtils.TagIds | rag_utils.py:36-44 | every metadata id names a chunk whose parts contain its text, ids never decrease, and piece k of chunk i is tagged with id i, the chunk it came from |
| RagUtils.TaggedChunks | rag_utils.py:36-44 | for the input chunks: metas[j].text is parts[j], metas[j].chunk_id is a valid chunk whose parts contain that text, ids never decrease, and piece k of chunk i is tagged with chunk_id i |
| RagUtils.Offset | rag_utils.py:36-40 | the position in the flat part list where the parts of chunk i begin: the number of parts of the chunks before it |
| RagUtils.TaggedAt | rag_utils.py:39-44 | the metadata at the position of piece k of chunk i is (i, that piece) |
| RagUtils.TagAt | rag_utils.py:36-44 | piece k of chunk i gets the metadata (i, piece), at the position after all parts of the earlier chunks |
| RagUtils.TagPositions | rag_utils.py:36-44 | every piece of every chunk is tagged with its own chunk's index, so equal pieces of different chunks keep different ids |
| RagUtils.AllPieces | rag_utils.py:32-40 | all_embed_texts: the parts of every chunk, chunk after chunk; CollectPieces and TaggedChunks state its properties |
| RagUtils.Batches | rag_utils.py:49-50 | the slices texts[i:i+3] for i in range(0, len(texts), 3), as a recursive definition; BatchesCover, BatchesSizes and BatchesStep state its properties |
| RagUtils.EmbedAll | rag_utils.py:49-55 | the embedder's vectors for each batch in order, concatenated, or the first batch's error; EmbedBatches and BuildIndex are proved to follow it |
| RagUtils.Tag | rag_utils.py:36-44 | one metadata record per piece, carrying the index of its chunk and its text, chunk after chunk; TagTexts and TagIds state its properties |
| RagUtils.Tagged | rag_utils.py:36-44 | the metadata of all pieces of the input chunks; TaggedChunks states its properties |
| RagUtils.BatchesCover | rag_utils.py:49-50 | the batches, concatenated in order, are exactly the parts |
| RagUtils.BatchesSizes | rag_utils.py:48-50 | each batch holds 1 to 3 parts, there are ceil(#parts/3) batches, and none for no parts |
| RagUtils.BatchesStep | rag_utils.py:49-50 | the batches from position i are the slice [i, i+3) followed by the batches from i+3 |
| RagUtils.Contexts | rag_utils.py:64-67 | one (score, text, chunk_id) triple per hit, in hit order |
| RagUtils.CollectContexts | rag_utils.py:64-67 | the loop over the search results gives exactly the triples of Contexts, in result order |
| RagUtils.AppendPieces | rag_utils.py:39-44 | the inner loop appends the parts and their tagged metadata |
| RagUtils.CollectPieces | rag_utils.py:32-44 | the first phase yields all parts in chunk order and their tagged metadata |
| RagUtils.EmbedBatches | rag_utils.py:47-55 | the embedder is called on a prefix of the batches, on all of them when every call succeeds, and the vectors are concatenated in batch order |
| RagUtils.RagHelper.constructor | rag_utils.py:22-24 | a helper starts with a fresh, empty store |
| RagUtils.RagHelper.BuildIndex | rag_utils.py:27-58 | batches are sent in order; on success the store gets the vectors and the tagged metadata appended, on failure it is unchanged |
| RagUtils.RagHelper.Retrieve | rag_utils.py:60-67 | the question is embedded once and searched, and each search hit becomes a triple in search order; errors propagate |
| EmbeddingsUtils.Scores | embeddings_utils.py:21 | one similarity score per stored row, in row order |
| EmbeddingsUtils.TopIndices | embeddings_utils.py:22 | the chosen positions are distinct, of the requested count, in non-increasing score, and no position left out scores above a chosen one |
| EmbeddingsUtils.SliceLen | embeddings_utils.py:22 | the length of a Python slice xs[:k] of a list of length n, clamped at both ends; SearchCount states it for a search result |
| EmbeddingsUtils.Width | embeddings_utils.py:10-14 | the column count numpy gives a list of vectors: the first row's length, 0 for an empty list |
| EmbeddingsUtils.AsRows | embeddings_utils.py:14 | how `vstack` reads an array: an empty list, of shape (0,), is one row of width 0; the rows are never empty and keep the width |
| EmbeddingsUtils.Accepts | embeddings_utils.py:10-14 | whether add accepts the rows: they form a matrix, and when vectors are stored its width equals theirs, an empty list on either side counting as width 0; VectorStore.Add succeeds exactly when it holds |
| EmbeddingsUtils.Stack | embeddings_utils.py:11-14 | the stored array after add: the new array on a first add, else the vstack of the two, each read as AsRows does |
| EmbeddingsUtils.StackAppends | embeddings_utils.py:14 | stacking non-empty rows onto a stored matrix appends them and keeps the stored rows as the prefix |
| EmbeddingsUtils.EmptyAddMismatch | embeddings_utils.py:10-14 | an empty first add followed by rows of positive width, and an empty add after such rows, are both rejected, as vstack rejects them |
| EmbeddingsUtils.Searched | embeddings_utils.py:17-26 | what search may return: [] on an empty store, BadQuery on a shape error, otherwise the hits of a RankedByScore choice of the slice length; SearchedResult and SearchCount draw its consequences |
| EmbeddingsUtils.VectorStore.constructor | embeddings_utils.py:5-7 | a new store has no vectors and no metadata |
| EmbeddingsUtils.VectorStore.Add | embeddings_utils.py:9-15 | succeeds exactly when Accepts holds; then the stored array is Stack of the old array and the rows, and the metadata are appended; otherwise changes nothing |
| EmbeddingsUtils.VectorStore.Search | embeddings_utils.py:17-26 | an empty store gives no results; otherwise the top_k-slice length of records, ranked best first and distinct, each with its score and metadata; the store is not modified |
| EmbeddingsUtils.CollectHits | embeddings_utils.py:23-26 | the results loop gives, in the chosen order, each chosen record's score and metadata, and fails exactly when a chosen record has no metadata |
| EmbeddingsUtils.SearchedResult | embeddings_utils.py:17-26 | a search of an empty store returns []; a successful search returns the top_k-slice count of results, with non-increasing scores, each carrying stored metadata |
| EmbeddingsUtils.SearchCount | embeddings_utils.py:18-25 | a successful search of a non-empty store returns min(top_k, n) results for top_k >= 0; a negative top_k drops that many of the lowest-ranked records |
| EmbeddingsUtils.RankedTopScores | embeddings_utils.py:22-25 | any record scoring above a returned one is itself returned |
| AiClient.CandidateText | ai_client.py:37 | the nested lookup candidates[0].content.parts[0].text, None when any step raises; a result needs a JSON object holding "candidates" |
| AiClient.Settle | ai_client.py:33-47 | how a reply not retried ends the call: Ok exactly for a 200 JSON reply; it is an answer exactly when the candidate text is present, and then carries that text, otherwise the whole response; any other status raises with that status |
| AiClient.CandidateTextFound | ai_client.py:36-37 | any response holding candidates[0].content.parts[0].text, whatever its other keys, yields that text |
| AiClient.CandidateTextNeedsObject | ai_client.py:36-39 | a response that is not an object yields no text, so the whole response is returned |
| AiClient.FirstSettled | ai_client.py:31-47 | the first of the four attempts whose status is not 429/503, or 4 when all are |
| AiClient.GenerateText | ai_client.py:29-48 | at most 4 requests, stopping at the first non-429/503 reply; waits 1, 2, 4, ... before each retry; 200 returns the text or the whole response, other statuses raise, four 429/503 replies raise retries exhausted |
| AiClient.AllTransient | ai_client.py:30-48 | four 429/503 replies exhaust the retries after waits of 1, 2, 4 and 8 |
| AiClient.FirstOkSettles | ai_client.py:33-39 | a 200 first reply ends the loop after one request |
| AiClient.Pick | ai_client.py:84-87 | an entry's vector: "values" when present, else "embedding", for the "embeddings" format; always "embedding" for the "data" format; DecodeEntries and EmbeddingsFirst state its properties |
| AiClient.DecodeEntries | ai_client.py:84-87 | one vector per entry in order, taking values before embedding under "embeddings"; a missing key fails |
| AiClient.DecodeBody | ai_client.py:82-90 | fails only with UnknownFormat or MissingKey; on success gives one vector per entry of the list it decoded, the "embeddings" list when present and otherwise the "data" list |
| AiClient.EmbedMany | ai_client.py:75-90 | a non-200 reply fails with its status and body and is not retried; a reply that is not JSON fails |
| AiClient.EmbedOne | ai_client.py:57-92 | a single text gets the first vector of the list answer, and fails when the list does |
| AiClient.EmbeddingsFirst | ai_client.py:82-87 | when "embeddings" is present, "data" is ignored |
| AiClient.UnknownFormatExactly | ai_client.py:82-90 | the unknown-format error occurs exactly when neither key is present |
| AiClient.DecodeRoundTrip | ai_client.py:82-87 | vectors sent in either supported shape decode back to themselves |
| KeywordRetrieval.LongWords | app.py:120 | the kept words are the words longer than two characters, each kept as often as it occurs, and no others |
| KeywordRetrieval.LongWordsAppend | app.py:120 | the keywords of two runs of words are those of the first run followed by those of the second, so question order is kept |
| KeywordRetrieval.LongWordsOne | app.py:120 | a single word is kept exactly when it is longer than two characters |
| KeywordRetrieval.Keywords | app.py:120 | the keywords are among the lowercased question's words, each longer than two characters, and no more numerous than those words |
| KeywordRetrieval.Score | app.py:123-124 | a chunk's score is at most the keyword count, and 0 exactly when no keyword occurs in the lowercased chunk |
| KeywordRetrieval.NoLongWords | app.py:120 | words of at most two characters give no keywords |
| KeywordRetrieval.CountIn | app.py:124 | the score is between 0 and the keyword count; 0 exactly when no keyword occurs, the full count exactly when all occur |
| KeywordRetrieval.CountInAppend | app.py:124 | the score over two keyword lists is the sum of the scores |
| KeywordRetrieval.ShortWordsScoreZero | app.py:120-124 | a question without a word longer than two characters has no keywords and every chunk scores 0 |
| KeywordRetrieval.MatchesFrom | app.py:122-126 | the matches of the chunks from a position on, as a recursive definition; MatchesFromRecorded, MatchesFromOrdered and MatchesFromComplete state its properties |
| KeywordRetrieval.MatchesFromRecorded | app.py:122-126 | every match is (score, i, chunks[i]) with its positive score |
| KeywordRetrieval.MatchesFromOrdered | app.py:122-126 | matches are recorded in increasing chunk position |
| KeywordRetrieval.MatchesFromComplete | app.py:122-126 | every chunk with a positive score is matched |
| KeywordRetrieval.CollectMatches | app.py:121-126 | the loop records exactly the positive-scoring chunks in order |
| KeywordRetrieval.NoKeywordsNoMatches | app.py:120-131 | with no keywords the match list is empty |
| KeywordRetrieval.Insert | app.py:128 | inserting adds exactly the one match |
| KeywordRetrieval.SortByScore | app.py:128 | sorting is a permutation of the matches |
| KeywordRetrieval.InsertKeepsRanked | app.py:128 | inserting a match of lower position into a ranked list keeps it ranked |
| KeywordRetrieval.SortRanked | app.py:128 | the sort orders by score descending, ties in increasing chunk position, as a stable sort does |
| KeywordRetrieval.Top | app.py:128 | the first five entries of the stable sort; TopBest states its properties |
| KeywordRetrieval.RankedPrefixBest | app.py:128 | a prefix of a ranked list leaves out nothing that scores above what it keeps |
| KeywordRetrieval.TopBest | app.py:128 | at most five matches are kept, ranked, each one a match, and no match left out scores above a kept one |
| KeywordRetrieval.RetrievalBest | app.py:120-128 | the kept matches are at most five recorded chunks, ranked, and every scoring chunk left out scores no higher than any kept one |
| KeywordRetrieval.ContextBlock | app.py:136 | the block "CONTEXT #i (score s):\ntext\n\n" of one match; ContextBlockHeader states how it begins |
| KeywordRetrieval.ContextsText | app.py:134-136 | the blocks of the matches in order; ContextsTextAppend and BuildContexts state its properties |
| KeywordRetrieval.BuildContexts | app.py:134-136 | the loop concatenates the context blocks of the matches in order |
| KeywordRetrieval.ContextsTextAppend | app.py:134-136 | the contexts of two match lists are the first's followed by the second's |
| KeywordRetrieval.ContextBlockHeader | app.py:136 | each block starts with "CONTEXT #", then the decimal digits of the chunk position followed by a space, and those digits read back as the chunk position |
| KeywordRetrieval.Ask | app.py:116-136 | a blank question does no retrieval; otherwise no top matches means "no passages", else the top matches and their contexts |

## Left out

- Reading the PDF (`PdfReader`, `extract_text`) is not modelled. The pages' texts are the input of `CleanPages`.
- HTTP requests, JSON decoding, `time.sleep`, `print`, environment variables and the missing-key check are not modelled. Replies are parameters, and the waits and requests are ghost results.
- `lower()` is modelled for ASCII letters only. Python's Unicode lowering, which can change lengths, is not modelled.
- Cosine similarity is not modelled. It is a parameter of `Search`, and the error cases numpy and scikit-learn raise are summarised as `BadQuery`.
- EmbeddingsUtils.TopIndices: does not fix the order of records of equal score. `numpy.argsort` is not stable, so the source promises no tie order, and any ranking is accepted.
- Only list inputs to `add` are modelled. Ragged lists are rejected, as `np.array(..., dtype=float)` rejects them. Arrays of other dimensions are not modelled.
- The single-vector branch at rag_utils.py:52-54 is not modelled. It runs when the first element of `embed_text`'s result is a float, that is when one flat vector comes back instead of a list of vectors. The model's embedder result is always a list of vectors, so such a result is not represented.
- `RAGHelper.embed_model` and the `AIClient` fields are not modelled. The embedder and similarity are the helper's parameters.
- PdfUtils.ChunkText, PdfUtils.ChunkWords, PdfUtils.WindowsFrom: require `max_tokens >= 1`. With `max_tokens <= 0` the source loop never ends when `overlap >= max_tokens`, because `start` stays put or moves back. When `overlap < max_tokens == 0` it ends and emits empty chunks: two words with `max_tokens=0, overlap=-1` give `["", ""]`. With a negative `max_tokens` and a lower `overlap` the slice bounds go negative and cut from the end: `"a b c"` with `max_tokens=-1, overlap=-2` gives `["a b", "", ""]`. A blank text gives `[]` for any `max_tokens`. None of these cases is modelled. The app only calls `chunk_text` with `max_tokens >= 300` and `overlap >= 0` (app.py:27-30).
- PdfUtils.ChunkText, EmbeddingsUtils.VectorStore.Search, RagUtils.RagHelper.Retrieve: take `max_tokens`, `overlap` and `top_k` as parameters. The source defaults (3000, 200, 3 and 4) are not modelled. The app passes both arguments to `chunk_text` (app.py:59), and `retrieve` passes its `top_k` to `search`.
- RagUtils.SplitForEmbedding, RagUtils.EmbedParts: require `max_chars >= 1`, or `max_chars == 0` with a blank text, which gives `[]`. With `max_chars == 0` and any other text, or with a negative `max_chars`, the source loop never ends.
- AiClient.GenerateText: `str(data)` is not modelled. The fallback result is the decoded response itself (`Dump`).
- AiClient.EmbedOne: indexing an empty vector list raises. That case is the `NoVectors` error.
- The answer generation after the contexts (`RAG_ANSWER_PROMPT`, the generation call and its display) is not modelled.

## Findings

| source | as written | input that shows it | evidently intended | confidence | as-written member | corrected member |
|---|---|---|---|---|---|---|
| pdf_utils.py:33 | when the last window reaches the end and overlap is positive, the loop moves start back to end - overlap and emits one more window inside the previous one | 30 words, max_tokens=100, overlap=10: windows [0,30) and [20,30) | stop once a window reaches the last word, so every window adds new words | not executed | PdfUtils.TrailingWindowRepeats | PdfUtils.WindowsToEndAdvance |
