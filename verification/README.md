# DocWeave core, modelled in Dafny

This project models the core of DocWeave (`multi-doc-rag-system`), a retrieval-augmented
question-answering service over a user's documents, and proves properties of that model.

Indexing a document list goes through these stages:

1. Each enabled document is loaded by the loader its path calls for.
2. Its parts are tagged with `doc_type`, `source`, `page` and `section`.
3. The text is cleaned according to the document type and then normalised.
4. It is split structurally into chunks of up to 2000 characters.
5. Chunks over the token target are split again, and each sub-chunk gets an id `parent-j`.
6. The whole list becomes one vector store, or the build fails on the first failing document.

The API keeps one process-wide `PipelineState`:

- A fingerprint of the document list lets an unchanged list reuse the index.
- `/query` is gated on the processing status.
- `/cleanup` clears everything.
- `/cleanup_selected` rebuilds the index from the entries that remain.

A query is answered through a cascade:

1. A similarity search for `ceil(total * initial_pct)` chunks.
2. A cross-encoder rerank down to `ceil(initial_k * rerank_pct)`.
3. A greedy maximal-marginal-relevance (MMR) pick of `ceil(rerank_k * mmr_pct)` chunks.

A zero rerank or MMR size is floored to one, and `min_chunk` short-circuits small stores. The
answer is generated by stuffing the context, or by map-reduce when the context's token count is
over the limit. Sources are listed once per (file, page), with the sentences that mention the
answer's keywords wrapped in `<mark>`.

Each source file is one module: `MainUtils`, `Retriever`, `Reranker`, `Chunking`,
`CleanNormalize`, `Extractor`, `Loaders`, `Pipelines`, `App` with `Fingerprint`, and
`StreamlitApp`. Helper modules model the Python built-ins the core relies on:

- `Text`: `str.isspace`, `strip`, `lower`, `str(int)`;
- `Paths`: posix `basename`, `splitext`, `join`;
- `Sorting`: the stable `sorted`;
- `Lists`: a loop that stops at the first exception;
- `Records`: the `text`/`metadata` dicts;
- `Wrappers`: `Option` and `Result`.

Outside collaborators are function-typed parameters:

- text splitter and tokenizer;
- document loaders;
- FAISS similarity search;
- cross-encoder scores;
- embeddings and cosine;
- the LLM and its prompts;
- md5;
- the file system;
- BeautifulSoup;
- the markdown regex rewrites.

An exception becomes `Err(message)`, carrying the message text the code builds.

Where the code differs from its docstrings or from what its callers expect, the model follows
the code:

- **Fingerprint and temporary paths.** The docstring of `_fingerprint` promises that the same
  content gives the same fingerprint even when temp paths differ. The code sorts the entries
  by path before hashing their contents. So two uploads whose temporary names sort the other
  way round the second time give different keys.
  - `Fingerprint.FingerprintOrderDependent` shows this.
  - `Fingerprint.FingerprintSameContent` states when the promise does hold: the two path
    lists sort the same way.
- **Unaccepted retrieval keys.** `RAGPipeline.retrieve` forwards a configured `initial_k`,
  `rerank_k` or `mmr_k`, but the retriever's signature does not accept these. So such a
  configuration makes every query fail (`Pipelines.RetrieveKwargs`).
- **Case of suffixes.** The loader's suffix tests are case-sensitive, so `report.PDF` is
  rejected. The extractor lowercases the extension (`Loaders.UpperCaseSuffixRejected`).

Two consequences of the code are stated on their own:

- **Dropping the old index.** `app.py:140-143` clears the store and the retriever before the
  rebuild, so a failed rebuild leaves no index (`App.FailedRebuildDropsStore`).
- **The retrieval cascade.** 10 chunks with every percentage at 0.5 give stage sizes 5/3/2
  (`Retriever.CascadeTenHalves`). When the search returns what it is asked for, exactly 2
  chunks come back (`Retriever.RetrieveFullSearch`).

## Model

Source paths are relative to the repository's root directory (`multi-doc-rag-system/src/...`).

| member | source | states |
|---|---|---|
| MainUtils.Ceil | multi-doc-rag-system/src/utils/main_utils.py:65 | the result is the least integer not below the real argument |
| MainUtils.ComputeK | multi-doc-rag-system/src/utils/main_utils.py:52-66 | k is 0 for a non-positive total or bound or a missing pct; otherwise it is the ceiling of total*pct clamped into [0, upper_bound], so it never exceeds the bound |
| MainUtils.ComputeKWhole | multi-doc-rag-system/src/utils/main_utils.py:59-66 | pct 1.0 keeps min(total, upper_bound) |
| MainUtils.BuildContextAppend | multi-doc-rag-system/src/utils/main_utils.py:93-98 | the context of two non-empty document lists is their contexts joined by a blank line; the citations flag changes nothing |
| MainUtils.BuildContext | multi-doc-rag-system/src/utils/main_utils.py:93-98 | no document gives the empty context and a single document its own text |
| MainUtils.JoinAppend | multi-doc-rag-system/src/utils/main_utils.py:98 | joining a concatenation of two non-empty lists puts one separator between the two joins |
| MainUtils.Words | multi-doc-rag-system/src/utils/main_utils.py:108 | every word found is a non-empty run of word characters |
| MainUtils.WordsSkip | multi-doc-rag-system/src/utils/main_utils.py:108 | a character that is not a word character starts no word: the words of c + t are those of t |
| MainUtils.WordsWordThen | multi-doc-rag-system/src/utils/main_utils.py:108 | a run of word characters followed by a separator is found as one whole word, then the words of the rest: the runs are maximal and in order |
| MainUtils.WordsOfWord | multi-doc-rag-system/src/utils/main_utils.py:108 | a text that is a single run of word characters is one word |
| MainUtils.WordsCover | multi-doc-rag-system/src/utils/main_utils.py:108 | the words found, concatenated, are exactly the word characters of the text in order: nothing is lost or invented |
| MainUtils.LongWords | multi-doc-rag-system/src/utils/main_utils.py:109 | a word is kept exactly when it is found and has more than 3 characters |
| MainUtils.LongWordsAppend | multi-doc-rag-system/src/utils/main_utils.py:109 | the filter keeps order: on a concatenation it is the filter of each part, one after the other |
| MainUtils.LongWordsSingle | multi-doc-rag-system/src/utils/main_utils.py:109 | a single word is kept exactly when it has more than 3 characters |
| MainUtils.Dedup | multi-doc-rag-system/src/utils/main_utils.py:110 | the deduplicated list has the same members as the input and no repeats |
| MainUtils.DedupOrder | multi-doc-rag-system/src/utils/main_utils.py:110 | the deduplicated list keeps the order of first occurrence |
| MainUtils.DedupKeywords | multi-doc-rag-system/src/utils/main_utils.py:110-113 | the first 50 distinct long words are 1..50 distinct words in first-occurrence order; a long word left out comes after the 50th and only when there are 50 |
| MainUtils.HighlightKeywords | multi-doc-rag-system/src/utils/main_utils.py:101-114 | there is no pattern exactly when the answer is empty or has no word longer than 3 characters; otherwise the pattern's keywords are the first 50 distinct long words of the lowercased answer |
| MainUtils.FirstBreakFrom | multi-doc-rag-system/src/utils/main_utils.py:127 | finds the first position from k where whitespace follows a '.', '!' or '?', or reports that there is none |
| MainUtils.Sentences | multi-doc-rag-system/src/utils/main_utils.py:127 | the split gives at least one piece; no piece contains a sentence break; every piece but the last ends with terminal punctuation; a text without a break is its own single piece |
| MainUtils.CollapseCopies | multi-doc-rag-system/src/utils/main_utils.py:127 | stretches without a sentence break are copied unchanged by the collapse and hold no break to count |
| MainUtils.CollapseShift | multi-doc-rag-system/src/utils/main_utils.py:127 | the collapse and the break count read the same on a suffix that starts at no break |
| MainUtils.CollapseAtBreak | multi-doc-rag-system/src/utils/main_utils.py:127 | a whitespace run after a sentence end becomes one space and counts as one break |
| MainUtils.SentencesRejoin | multi-doc-rag-system/src/utils/main_utils.py:127-134 | round trip: the sentences joined with single spaces are the text with every whitespace run after ".", "!" or "?" put as one space (defined character by character), and there is one sentence more than such runs |
| MainUtils.JoinFirstBreak | multi-doc-rag-system/src/utils/main_utils.py:127-134 | in sentences joined by single spaces, the first sentence break is the space after the first sentence |
| MainUtils.PiecesUnique | multi-doc-rag-system/src/utils/main_utils.py:127 | two splits of that shape that rejoin to the same text are the same split |
| MainUtils.SentencesUnique | multi-doc-rag-system/src/utils/main_utils.py:127 | the sentences are the only split of that shape that rejoins to the collapsed text, so the split is determined by the text |
| MainUtils.MarkSentences | multi-doc-rag-system/src/utils/main_utils.py:128-133 | one output per sentence, in order; a sentence is wrapped in mark tags exactly when it mentions a keyword |
| MainUtils.HighlightUnmarked | multi-doc-rag-system/src/utils/main_utils.py:117-134 | when no sentence mentions a keyword, highlighting only puts every whitespace run after a sentence end as one space |
| MainUtils.HighlightSingleSentence | multi-doc-rag-system/src/utils/main_utils.py:117-134 | a text with no sentence break comes back marked whole if it mentions a keyword, and unchanged otherwise |
| MainUtils.HighlightOverlap | multi-doc-rag-system/src/utils/main_utils.py:117-134 | an empty answer, or one with no word longer than 3 characters, leaves the text unchanged; otherwise the result is the text split at its sentence breaks (pieces that rejoin to the collapsed text, one more than the breaks), each piece marked when it mentions a keyword, joined by single spaces |
| MainUtils.HighlightMarks | multi-doc-rag-system/src/utils/main_utils.py:117-134 | for any split of the collapsed text at its sentence breaks, the highlighted text is that split with the mentioning pieces marked, joined by single spaces |
| MainUtils.KeepFirst | multi-doc-rag-system/src/utils/main_utils.py:145-160 | the deduplicating loop never yields more entries than it reads |
| MainUtils.ExtractSources | multi-doc-rag-system/src/utils/main_utils.py:137-176 | there are never more sources than documents |
| MainUtils.KeptFromSpec | multi-doc-rag-system/src/utils/main_utils.py:157-160 | the kept positions are ascending; each is the first occurrence of its key; every first occurrence from the start position is kept |
| MainUtils.KeepFirstKept | multi-doc-rag-system/src/utils/main_utils.py:145-160 | the loop with its seen-set yields exactly the documents at the first occurrences of their keys, in document order |
| MainUtils.KeptFirstKeys | multi-doc-rag-system/src/utils/main_utils.py:157-160 | the kept keys are pairwise different, and every document's key is one kept at or before it |
| MainUtils.ExtractSourcesSpec | multi-doc-rag-system/src/utils/main_utils.py:137-176 | one source per distinct basename and page key, at the key's first document, with its basename path, "Page p" or "N/A" page info, and chunk text as snippet and chunk; without an answer the highlighted chunk is the chunk |
| Reranker.Ranking | multi-doc-rag-system/src/retrieval/reranker.py:49-53 | the ranking is a rearrangement of the candidates: each entry names its original position, and no position repeats |
| Reranker.RankedIndexOf | multi-doc-rag-system/src/retrieval/reranker.py:49-53 | every candidate appears in the ranking, tagged with its position |
| Reranker.RankingSorted | multi-doc-rag-system/src/retrieval/reranker.py:51-53 | the ranking is ordered by score, highest first |
| Reranker.SliceEnd | multi-doc-rag-system/src/retrieval/reranker.py:54-55 | the end of the slice `[:top_k]` follows Python's rules for a non-negative and for a negative top_k |
| Reranker.Rerank | multi-doc-rag-system/src/retrieval/reranker.py:31-60 | the result has the length the slice gives, is ordered by score descending, and holds only candidates; without top_k it is a permutation of them |
| Reranker.RerankStable | multi-doc-rag-system/src/retrieval/reranker.py:51-56 | every returned document is the candidate at its ranked position, no position repeats, and equal scores keep their input order |
| Reranker.RerankKeepsTop | multi-doc-rag-system/src/retrieval/reranker.py:51-55 | a candidate cut off by top_k scores no higher than the last one kept |
| Retriever.ArgMax | multi-doc-rag-system/src/retrieval/retriever.py:156-166 | Python's `max` over the remaining list picks a highest MMR score, and the first such one in list order |
| Retriever.ArgMaxIsBest | multi-doc-rag-system/src/retrieval/retriever.py:153-168 | the picked candidate beats every unselected candidate, strictly so for every lower index |
| Retriever.RemainingStep | multi-doc-rag-system/src/retrieval/retriever.py:167-168 | moving the pick from remaining to selected keeps remaining sorted and equal to the unselected indices, and keeps selected free of repeats |
| Retriever.GreedyStep | multi-doc-rag-system/src/retrieval/retriever.py:153-168 | one loop turn appends the best remaining candidate, keeps the loop state and leaves one fewer remaining |
| Retriever.GreedyFacts | multi-doc-rag-system/src/retrieval/retriever.py:153-168 | the loop extends the current selection to min(k, all candidates) distinct indices |
| Retriever.GreedyChoices | multi-doc-rag-system/src/retrieval/retriever.py:153-168 | every index the loop adds is a best pick given the indices chosen before it |
| Retriever.ApplyMmr | multi-doc-rag-system/src/retrieval/retriever.py:170 | the output is the candidates at the selected indices, in selection order |
| Retriever.MmrSpec | multi-doc-rag-system/src/retrieval/retriever.py:129-170 | MMR returns min(k, n) distinct candidates, or none for k <= 0, and each is a best pick by the MMR score given those before it |
| Retriever.MmrPureRelevance | multi-doc-rag-system/src/retrieval/retriever.py:158-166 | with lambda 1.0 the picks come in order of relevance to the query, and every candidate left out is no more relevant than each pick |
| Retriever.CascadeSizes | multi-doc-rag-system/src/retrieval/retriever.py:75-101 | initial_k is compute_k over the store; once it is positive, rerank_k is compute_k of initial_k raised to 1 when it is 0, and mmr_k is compute_k of the rerank size before that floor, raised to 1 when it is 0; so 1 <= mmr_k <= rerank_k <= initial_k <= total |
| Retriever.CascadeTenHalves | multi-doc-rag-system/src/retrieval/retriever.py:75-101 | 10 chunks with every percentage 0.5 give the sizes 5, 3 and 2 |
| Retriever.Retrieve | multi-doc-rag-system/src/retrieval/retriever.py:58-64 | an empty store gives no documents and calls no stage |
| Retriever.RetrieveShape | multi-doc-rag-system/src/retrieval/retriever.py:58-125 | a store within min_chunk returns a search for all of it and skips rerank and MMR; a zero initial_k returns nothing; otherwise search, rerank and MMR run with sizes in that order and at most mmr_k documents, all from the search, come back |
| Retriever.RetrieveNeedsInitialPct | multi-doc-rag-system/src/retrieval/retriever.py:75-93 | without initial_pct, and without a min_chunk short-circuit, nothing is retrieved |
| Retriever.RetrieveFullSearch | multi-doc-rag-system/src/retrieval/retriever.py:103-125 | when the search returns the initial_k asked for, exactly mmr_k documents come back |
| Chunking.SplitDocument | multi-doc-rag-system/src/preprocessing/chunking.py:42-53 | one document per splitter piece, with the piece's text and the input metadata plus its start index |
| Chunking.StructuralSplit | multi-doc-rag-system/src/preprocessing/chunking.py:12-68 | fails exactly when text, metadata or doc_type is missing, with its own message for missing keys; otherwise one chunk per 2000-character piece, numbered by chunk_id from 0 |
| Chunking.StructuralKeepsMetadata | multi-doc-rag-system/src/preprocessing/chunking.py:57-60 | a structural chunk's metadata differs from the document's only in start_index and chunk_id |
| Chunking.RefineChunk | multi-doc-rag-system/src/preprocessing/chunking.py:94-117 | a chunk within the token target passes through unchanged; a larger one fails exactly when the overlap exceeds the target, with LangChain's overlap error |
| Chunking.RefineChunkSpec | multi-doc-rag-system/src/preprocessing/chunking.py:89-117 | a chunk within the target passes unchanged; an oversized one, when the overlap fits the target, becomes the token splitter's pieces with ids `parent-j`, its other metadata untouched |
| Chunking.RefineFromOutcome | multi-doc-rag-system/src/preprocessing/chunking.py:84-122 | the loop fails exactly when the overlap exceeds the target and some chunk is above the target, and then with the overlap error |
| Chunking.LengthBasedRefinement | multi-doc-rag-system/src/preprocessing/chunking.py:70-122 | refinement fails exactly when the overlap exceeds the target and some chunk is above the target, with the overlap error re-raised |
| Chunking.RefineAppend | multi-doc-rag-system/src/preprocessing/chunking.py:89-117 | refinement works chunk by chunk: refining a + b is refining a, then b with its positions numbered on, stopping at the first error |
| Chunking.RefineWithinTarget | multi-doc-rag-system/src/preprocessing/chunking.py:94-117 | a list whose chunks are all within the target is returned unchanged |
| Chunking.RefineFits | multi-doc-rag-system/src/preprocessing/chunking.py:89-117 | when the token splitter keeps its pieces within the target, every chunk of a successful refinement is within it |
| Chunking.RefineIdempotent | multi-doc-rag-system/src/preprocessing/chunking.py:70-122 | when the token splitter keeps its pieces within the target, refining a successful refinement again returns it unchanged |
| Chunking.SubChunkIdsDistinct | multi-doc-rag-system/src/preprocessing/chunking.py:110 | sub-chunks of one parent get different ids |
| Chunking.ChunkOne | multi-doc-rag-system/src/preprocessing/chunking.py:141-152 | a document fails to chunk exactly when its structural split fails, with that error, or when the overlap exceeds the target and a structural chunk is above it, with the overlap error |
| Chunking.ChunkDocument | multi-doc-rag-system/src/preprocessing/chunking.py:124-157 | no document gives no chunk; the call succeeds exactly when every document chunks |
| Chunking.ChunkDocumentAppend | multi-doc-rag-system/src/preprocessing/chunking.py:124-157 | chunking a + b is chunking a then b, stopping at the first error |
| Chunking.ChunkSingleDocument | multi-doc-rag-system/src/preprocessing/chunking.py:141-152 | a single document gives its structural split's error or the refinement of its structural chunks |
| Chunking.ChunkDefaultsOutcome | multi-doc-rag-system/src/preprocessing/chunking.py:124 | with the defaults 500 and 100 the overlap check never fires: chunking fails exactly when a structural split does |
| CleanNormalize.ReplaceCrLf | multi-doc-rag-system/src/preprocessing/clean_normalize.py:22 | replacing CRLF adds no character, empties no text and leaves a text without CR unchanged |
| CleanNormalize.ReplaceCr | multi-doc-rag-system/src/preprocessing/clean_normalize.py:22 | the result has the input's length and, position by position, a line feed for each CR and the input character otherwise |
| CleanNormalize.CollapseBlanks | multi-doc-rag-system/src/preprocessing/clean_normalize.py:24 | no tab remains, only spaces are introduced, a non-empty text stays non-empty, and the leading stretch keeps its line feeds |
| CleanNormalize.CollapseBlanksFixes | multi-doc-rag-system/src/preprocessing/clean_normalize.py:24 | a text without tabs or double spaces is unchanged |
| CleanNormalize.CollapseBlankLines | multi-doc-rag-system/src/preprocessing/clean_normalize.py:26 | the leading whitespace stretch keeps its newlines up to two, and no whitespace stretch of the result holds more than two newlines; no character is introduced and a non-empty text stays non-empty |
| CleanNormalize.CollapseBlankLinesFixes | multi-doc-rag-system/src/preprocessing/clean_normalize.py:26 | a text whose whitespace runs hold at most two newlines is unchanged |
| CleanNormalize.StripAroundBreaks | multi-doc-rag-system/src/preprocessing/clean_normalize.py:28 | nothing new is introduced; a text starts with a newline afterwards exactly when its leading blanks end in one |
| CleanNormalize.StripAroundBreaksSpec | multi-doc-rag-system/src/preprocessing/clean_normalize.py:28 | the leading whitespace stretch keeps its number of line feeds, no space or tab touches a line feed afterwards, and the two-line-feed bound on every stretch is kept |
| CleanNormalize.StripAroundBreaksFixes | multi-doc-rag-system/src/preprocessing/clean_normalize.py:28 | a text where no blank touches a newline is unchanged |
| CleanNormalize.CollapseSpaces | multi-doc-rag-system/src/preprocessing/clean_normalize.py:30 | no two spaces remain adjacent; the leading stretch's newlines and the first character are kept; nothing new is introduced |
| CleanNormalize.CollapseSpacesKeeps | multi-doc-rag-system/src/preprocessing/clean_normalize.py:30 | collapsing spaces keeps the two-newline bound and keeps blanks away from newlines |
| CleanNormalize.CollapseSpacesFixes | multi-doc-rag-system/src/preprocessing/clean_normalize.py:30 | a text without double spaces is unchanged |
| CleanNormalize.StripFixes | multi-doc-rag-system/src/preprocessing/clean_normalize.py:32 | a text that neither starts nor ends with whitespace is unchanged by strip |
| CleanNormalize.NormalizeText | multi-doc-rag-system/src/preprocessing/clean_normalize.py:11-34 | the result is normalised: no CR or tab, no double space, no blank next to a newline, at most two newlines per whitespace run (so never three in a row), no surrounding whitespace; only newlines and spaces are introduced; the characters that are not whitespace are exactly those of the input, in order; two of them are adjacent exactly when they were, and the line endings between them are kept, cut to two |
| CleanNormalize.StepsNonSpace | multi-doc-rag-system/src/preprocessing/clean_normalize.py:22-32 | each of the six rewrites only drops, adds or replaces whitespace |
| CleanNormalize.ReplaceCrLfNonSpace | multi-doc-rag-system/src/preprocessing/clean_normalize.py:22 | the line-ending rewrite keeps every character that is not whitespace, in order |
| CleanNormalize.CollapseBlanksNonSpace | multi-doc-rag-system/src/preprocessing/clean_normalize.py:24 | collapsing spaces and tabs keeps every character that is not whitespace, in order |
| CleanNormalize.CollapseBlankLinesNonSpace | multi-doc-rag-system/src/preprocessing/clean_normalize.py:26 | collapsing blank lines keeps every character that is not whitespace, in order |
| CleanNormalize.StripAroundBreaksNonSpace | multi-doc-rag-system/src/preprocessing/clean_normalize.py:28 | removing blanks around line breaks keeps every character that is not whitespace, in order |
| CleanNormalize.CollapseSpacesNonSpace | multi-doc-rag-system/src/preprocessing/clean_normalize.py:30 | collapsing runs of spaces keeps every character that is not whitespace, in order |
| CleanNormalize.StripNonSpace | multi-doc-rag-system/src/preprocessing/clean_normalize.py:32 | str.strip keeps every character that is not whitespace, in order |
| CleanNormalize.NormalizeFixes | multi-doc-rag-system/src/preprocessing/clean_normalize.py:11-34 | a normalised text is unchanged by normalize_text |
| CleanNormalize.NormalizeIdempotent | multi-doc-rag-system/src/preprocessing/clean_normalize.py:11-34 | normalising twice is normalising once |
| CleanNormalize.StretchesWeave | multi-doc-rag-system/src/preprocessing/clean_normalize.py:11-34 | a text is recovered from its whitespace stretches and its non-whitespace characters |
| CleanNormalize.StretchesOfWeave | multi-doc-rag-system/src/preprocessing/clean_normalize.py:11-34 | stretches and characters that fit together are read back from the text they make, so splitting and weaving are inverse |
| CleanNormalize.WeaveStretchWise | multi-doc-rag-system/src/preprocessing/clean_normalize.py:11-34 | a step that rewrites each whitespace stretch on its own rewrites a text by rewriting each of its stretches and keeping the other characters in place |
| CleanNormalize.ReplaceCrLfSplit | multi-doc-rag-system/src/preprocessing/clean_normalize.py:22 | the CRLF replacement rewrites the stretch before a non-whitespace character apart from the rest of the text |
| CleanNormalize.ReplaceCrSplit | multi-doc-rag-system/src/preprocessing/clean_normalize.py:22 | the CR replacement rewrites the text before and after a non-whitespace character apart |
| CleanNormalize.CollapseBlanksSplit | multi-doc-rag-system/src/preprocessing/clean_normalize.py:24 | collapsing spaces and tabs rewrites the stretch before a non-whitespace character apart from the rest |
| CleanNormalize.CollapseBlankLinesSplit | multi-doc-rag-system/src/preprocessing/clean_normalize.py:26 | collapsing blank lines rewrites the stretch before a non-whitespace character apart from the rest |
| CleanNormalize.StripAroundBreaksSplit | multi-doc-rag-system/src/preprocessing/clean_normalize.py:28 | removing blanks around line feeds rewrites the stretch before a non-whitespace character apart from the rest |
| CleanNormalize.CollapseSpacesSplit | multi-doc-rag-system/src/preprocessing/clean_normalize.py:30 | collapsing runs of spaces rewrites the stretch before a non-whitespace character apart from the rest |
| CleanNormalize.ReplaceCrLfEnds | multi-doc-rag-system/src/preprocessing/clean_normalize.py:22 | after the CRLF replacement the CR and LF characters are exactly the line endings of the input, a CRLF counted once |
| CleanNormalize.ReplaceCrBreaks | multi-doc-rag-system/src/preprocessing/clean_normalize.py:22 | after the CR replacement a stretch holds one line feed per CR or LF it held |
| CleanNormalize.StretchGap | multi-doc-rag-system/src/preprocessing/clean_normalize.py:22-30 | the five steps before the strip keep an empty stretch empty and a non-empty one non-empty, and keep its line endings, cut to two |
| CleanNormalize.StepsWeave | multi-doc-rag-system/src/preprocessing/clean_normalize.py:22-30 | the five steps before the strip keep every non-whitespace character in place and rewrite each whitespace stretch on its own |
| CleanNormalize.StripWeave | multi-doc-rag-system/src/preprocessing/clean_normalize.py:32 | str.strip empties the first and last whitespace stretch and keeps the others |
| CleanNormalize.StripMiddle | multi-doc-rag-system/src/preprocessing/clean_normalize.py:32 | str.strip of whitespace, a text with no whitespace at either end, and whitespace gives that text |
| CleanNormalize.StepsGaps | multi-doc-rag-system/src/preprocessing/clean_normalize.py:11-34 | between every two neighbouring non-whitespace characters, normalising keeps them adjacent exactly when they were, and keeps the number of line endings between them, cut to two |
| CleanNormalize.PlainShape | multi-doc-rag-system/src/preprocessing/clean_normalize.py:28-30 | whitespace of spaces and line feeds with no double space and no space next to a line feed is one space or its line feeds alone |
| CleanNormalize.OrdinaryStretch | multi-doc-rag-system/src/preprocessing/clean_normalize.py:22-30 | on a stretch of spaces, tabs, CRs and LFs the steps before the strip leave nothing, one space, one line feed or two, by the stretch's line endings |
| CleanNormalize.NormalizeOrdinary | multi-doc-rag-system/src/preprocessing/clean_normalize.py:11-34 | for a text whose whitespace is spaces, tabs, CRs and LFs, the result is exactly its non-whitespace characters, each neighbouring pair joined by nothing, one space, one line feed or a blank line as they were adjacent, separated without a line ending, by one, or by more |
| CleanNormalize.DropNonAscii | multi-doc-rag-system/src/preprocessing/clean_normalize.py:75 | only ASCII characters remain, each as often as in the input |
| CleanNormalize.DropNonAsciiAppend | multi-doc-rag-system/src/preprocessing/clean_normalize.py:75 | the removal works part by part, so the kept characters stay in their order |
| CleanNormalize.DropNonAsciiSingle | multi-doc-rag-system/src/preprocessing/clean_normalize.py:75 | a single character is kept exactly when it is ASCII |
| CleanNormalize.CleanText | multi-doc-rag-system/src/preprocessing/clean_normalize.py:60-88 | markdown text ends ASCII-only; text of a type other than md and web is unchanged |
| CleanNormalize.CleanOne | multi-doc-rag-system/src/preprocessing/clean_normalize.py:47-92 | a record is cleaned exactly when it has text, metadata and doc_type, with the code's error for each missing part; its metadata is kept |
| CleanNormalize.CleanDocumentStructure | multi-doc-rag-system/src/preprocessing/clean_normalize.py:36-94 | succeeds exactly when every record is cleanable, giving one cleaned record per input in order; otherwise fails with the error of the first bad record |
| CleanNormalize.NormalizeAll | multi-doc-rag-system/src/preprocessing/clean_normalize.py:100-101 | every record's text is normalised and its metadata kept |
| CleanNormalize.InitializeDocumentNormalizer | multi-doc-rag-system/src/preprocessing/clean_normalize.py:96-102 | fails exactly when cleaning fails; otherwise each record's text is the normalised cleaned text, which is normalised, and its metadata is kept |
| CleanNormalize.InitializeStable | multi-doc-rag-system/src/preprocessing/clean_normalize.py:96-102 | for types other than md and web, feeding the output back in gives the same output |
| Extractor.DocType | multi-doc-rag-system/src/ingestion/extractor.py:24-33 | URLs are "web"; a path without extension is "unknown"; otherwise the lowercased extension without its dot, with "doc" read as "docx"; the type never holds a dot, slash or capital |
| Extractor.SourceEntry | multi-doc-rag-system/src/ingestion/extractor.py:46-51 | a non-empty non-URL source is reduced to its basename; URLs and empty sources are kept; a non-zero integer source is an error |
| Extractor.SourceEntryIdempotent | multi-doc-rag-system/src/ingestion/extractor.py:46-51 | normalising a normalised source changes nothing |
| Extractor.PageEntry | multi-doc-rag-system/src/ingestion/extractor.py:53 | the page is the existing page plus one, or the part's index plus one; a string page is an error |
| Extractor.ExtractOne | multi-doc-rag-system/src/ingestion/extractor.py:35-61 | a part extracts exactly when its metadata can be handled, giving its text and exactly the four keys doc_type, source, page and section with their defaults |
| Extractor.ExtractDocumentInfo | multi-doc-rag-system/src/ingestion/extractor.py:10-69 | succeeds exactly when every part extracts, with one record per part in order; otherwise fails with the first failing part's error |
| Extractor.ExtractOneBare | multi-doc-rag-system/src/ingestion/extractor.py:35-61 | a part without metadata gets the path's type, the path's basename as source, its index plus one as page and "N/A" as section |
| Extractor.ExtractBareParts | multi-doc-rag-system/src/ingestion/extractor.py:35-63 | parts without metadata always extract, each with those defaults |
| Loaders.LoaderFor | multi-doc-rag-system/src/ingestion/loaders.py:22-33 | URLs go to the web loader; no loader exactly when a non-URL path ends in none of .pdf, .docx, .doc, .txt and .md |
| Loaders.LoadDocument | multi-doc-rag-system/src/ingestion/loaders.py:10-40 | an unsupported path fails with the unsupported-type message; otherwise the result is the chosen loader's; every error is re-raised as "Could not load document ..." |
| Loaders.LoaderDocType | multi-doc-rag-system/src/ingestion/loaders.py:22-31 | the extractor's type for a loadable path is the loader's type, except for a local name whose part before its last dot is only dots (such as ".pdf"), which is typed "unknown" |
| Loaders.OrdinaryNameTyped | multi-doc-rag-system/src/ingestion/loaders.py:24-25 | "dir/report.pdf" is loaded by the PDF loader and typed "pdf" |
| Loaders.UpperCaseSuffixRejected | multi-doc-rag-system/src/ingestion/loaders.py:24-33 | an upper-case suffix such as report.PDF has no loader and fails to load |
| Loaders.DotOnlyNameUnknown | multi-doc-rag-system/src/ingestion/loaders.py:24-25 | a file named ".pdf" is loaded as a PDF but typed "unknown" |
| Pipelines.IngestOutcome | multi-doc-rag-system/src/rag/pipelines.py:92-95 | ingesting a path fails with the loader's error when loading fails, with the extractor's when extraction fails; after that only the overlap error can fail it, and never when the overlap is within the target |
| Pipelines.ExtractedCleanable | multi-doc-rag-system/src/rag/pipelines.py:93-94 | extracted records always pass cleaning, keep their metadata and carry the path's doc_type |
| Pipelines.CleanedChunkable | multi-doc-rag-system/src/rag/pipelines.py:94-95 | records that carry a doc_type chunk exactly when the overlap is within the target or none of their structural chunks is above it, and otherwise fail with the overlap error |
| Pipelines.IngestTagged | multi-doc-rag-system/src/rag/pipelines.py:92-98 | every chunk of an ingested path carries that path's doc_type |
| Pipelines.ProcessEntry | multi-doc-rag-system/src/rag/pipelines.py:82-101 | a disabled entry yields nothing; an enabled one yields its chunks, or its error prefixed with "Error processing document <path>" |
| Pipelines.PrepareVectorStore | multi-doc-rag-system/src/rag/pipelines.py:61-113 | an empty document list is an error; on success only the store changes and it is non-empty |
| Pipelines.PrepareSucceeds | multi-doc-rag-system/src/rag/pipelines.py:61-110 | preparation succeeds exactly when documents are configured, every enabled one ingests, and at least one yields a chunk |
| Pipelines.PrepareContents | multi-doc-rag-system/src/rag/pipelines.py:80-109 | the store holds exactly the chunks of the enabled documents |
| Pipelines.PrepareFirstFailure | multi-doc-rag-system/src/rag/pipelines.py:99-101 | the first enabled document that fails decides the error |
| Pipelines.PrepareTagged | multi-doc-rag-system/src/rag/pipelines.py:82-109 | every stored chunk carries the doc_type of an enabled configured document |
| Pipelines.EnabledOnly | multi-doc-rag-system/src/rag/pipelines.py:83-85 | keeps exactly the enabled entries |
| Pipelines.ProcessEnabledOnly | multi-doc-rag-system/src/rag/pipelines.py:82-101 | the document loop gives the same outcome on the enabled entries alone |
| Pipelines.PrepareOnlyEnabled | multi-doc-rag-system/src/rag/pipelines.py:82-85 | when some entry is enabled, removing the disabled entries changes neither the outcome nor the store |
| Pipelines.RetrieveKwargs | multi-doc-rag-system/src/rag/pipelines.py:126-135 | the call fails exactly when initial_k, rerank_k or mmr_k is configured, naming the first of them; otherwise the percentages and min_chunk are forwarded unchanged and lambda_mult defaults to 0.5 |
| Pipelines.KwargsRoundTrip | multi-doc-rag-system/src/rag/pipelines.py:126-135 | the knobs written out as configuration are forwarded unchanged, and a forwarded configuration is the one its knobs spell out |
| Pipelines.PipelineRetrieve | multi-doc-rag-system/src/rag/pipelines.py:118-137 | without a retriever the call fails with "Retriever not initialized"; with one, and collaborators that do not raise, it fails exactly when the keyword arguments are rejected |
| Pipelines.RetrievePrepared | multi-doc-rag-system/src/rag/pipelines.py:118-137 | with a store and accepted arguments, retrieval is the cascade over the store: a min_chunk short-circuit returns the search for the whole store, and otherwise the chunks come from one search |
| Pipelines.TotalTokens | multi-doc-rag-system/src/rag/pipelines.py:161 | no documents give 0, and the total is at least each document's token count |
| Pipelines.TotalTokensAppend | multi-doc-rag-system/src/rag/pipelines.py:161 | the total is a sum: over a concatenation it adds the totals of the parts |
| Pipelines.TotalTokensSingle | multi-doc-rag-system/src/rag/pipelines.py:161 | one document counts its own tokens |
| Pipelines.ChooseStrategy | multi-doc-rag-system/src/rag/pipelines.py:165-168 | the stuff strategy is chosen exactly when the total fits the token limit |
| Pipelines.Generate | multi-doc-rag-system/src/rag/pipelines.py:165-168 | stuffing asks the LLM once, and map-reduce asks it twice, reducing the mapped answer; the answer is the last reply |
| Pipelines.AnswerWithSources | multi-doc-rag-system/src/rag/pipelines.py:144-176 | with an LLM that does not raise, answering fails exactly when retrieval fails, with its error |
| Pipelines.AnswerNothingRetrieved | multi-doc-rag-system/src/rag/pipelines.py:151-156 | when nothing is retrieved, the fixed "not enough information" answer is given with no sources |
| Pipelines.AnswerStrategy | multi-doc-rag-system/src/rag/pipelines.py:158-173 | one prompt exactly when the retrieved tokens fit the limit; the first prompt carries the joined context; the answer is the LLM's last reply; the sources are extracted for that answer |
| Pipelines.AnswerUnprepared | multi-doc-rag-system/src/rag/pipelines.py:120-121 | before preparation, answering fails with "Retriever not initialized" |
| Pipelines.Answer | multi-doc-rag-system/src/rag/pipelines.py:139-142 | answer returns the answer text of answer_with_sources, and fails when it fails |
| Fingerprint.SortByPath | multi-doc-rag-system/src/api/app.py:76 | sorting by path gives a permutation of the entries in path order |
| Fingerprint.StrLeqTotal | multi-doc-rag-system/src/api/app.py:76 | Python's string order is total |
| Fingerprint.StrLeqTrans | multi-doc-rag-system/src/api/app.py:76 | Python's string order is transitive |
| Fingerprint.StrLeqAntisym | multi-doc-rag-system/src/api/app.py:76 | two strings ordered both ways are equal |
| Fingerprint.KeyParts | multi-doc-rag-system/src/api/app.py:76-91 | one key part per entry: the content hash for a readable file, the path otherwise, then the flag |
| Fingerprint.Fingerprint | multi-doc-rag-system/src/api/app.py:68-94 | no entries hash the empty key string; a list already in path order with no repeated path is keyed in its own order |
| Fingerprint.SortByPathSorted | multi-doc-rag-system/src/api/app.py:76 | a list already in path order with no repeated path comes out of the sort unchanged |
| Fingerprint.FingerprintOrderFreeSorts | multi-doc-rag-system/src/api/app.py:76 | when no path repeats, every rearrangement of the list sorts to the same list |
| Fingerprint.FingerprintOrderFree | multi-doc-rag-system/src/api/app.py:76-94 | when no path repeats, rearranging the document list keeps the fingerprint |
| Fingerprint.FingerprintSameContent | multi-doc-rag-system/src/api/app.py:68-94 | two lists in path order whose matched entries are readable files with equal content and flags have the same fingerprint |
| Fingerprint.FingerprintSingleFile | multi-doc-rag-system/src/api/app.py:80-85 | a single readable file's fingerprint does not depend on its path |
| Fingerprint.FingerprintOrderDependent | multi-doc-rag-system/src/api/app.py:69-76 | the same two files under temporary names that sort the other way give different key strings when their hashes differ |
| App.InitInv | multi-doc-rag-system/src/api/app.py:59-66 | the initial state is idle without a store and satisfies the state invariant |
| App.FileEntries | multi-doc-rag-system/src/api/app.py:117-119 | one enabled entry per saved path, in order |
| App.PrepareDocsList | multi-doc-rag-system/src/api/app.py:114-122 | the list is empty exactly when there is no file and no non-empty URL; every entry is enabled |
| App.PrepareDocsPaths | multi-doc-rag-system/src/api/app.py:114-122 | the paths are the files in order, then the URL when given |
| App.LoadedOf | multi-doc-rag-system/src/api/app.py:153-159 | one loaded entry per document, with its path and os.path.basename of the path as its name |
| App.ProcessDocuments | multi-doc-rag-system/src/api/app.py:124-165 | an unchanged list with a live store is reused; otherwise the configuration is replaced and the status is Ready exactly when preparation succeeds, recording the store, fingerprint and loaded list; on failure the store is gone and the error is kept |
| App.ProcessKeepsInv | multi-doc-rag-system/src/api/app.py:124-165 | processing keeps the invariant: Ready exactly with a store, an error message exactly in Error, and the store made from the configured documents |
| App.StoreFromRecorded | multi-doc-rag-system/src/api/app.py:145-150 | every chunk in the live store comes from an enabled entry of the recorded document list |
| App.FailedRebuildDropsStore | multi-doc-rag-system/src/api/app.py:140-164 | a rebuild that fails leaves no store and status Error |
| App.ReprocessRearranged | multi-doc-rag-system/src/api/app.py:132-138 | re-sending the ready list in another order, with no path repeated, changes nothing |
| App.Load | multi-doc-rag-system/src/api/app.py:182-205 | /load fails with 400 exactly when there is no file and no URL; a scheduled build uses the prepared list |
| App.LoadAgreesWithProcess | multi-doc-rag-system/src/api/app.py:192-201 | /load replies "already indexed" exactly when processing would reuse the store, which then changes nothing; otherwise the scheduled processing records the list |
| App.Snippet | multi-doc-rag-system/src/api/app.py:258 | snippets up to 200 characters are kept; longer ones are cut to their first 200 characters plus "..." |
| App.SnippetIdempotent | multi-doc-rag-system/src/api/app.py:258 | shortening a snippet twice is shortening it once |
| App.ToApiSource | multi-doc-rag-system/src/api/app.py:254-261 | the API source is named by the basename of the path and keeps path, page info, chunk and highlighted chunk, with the snippet shortened |
| App.ApiSourceName | multi-doc-rag-system/src/api/app.py:255-256 | the name of a source built from a document is its (already basename) path |
| App.ApiSources | multi-doc-rag-system/src/api/app.py:253-263 | one API source per pipeline source, in order |
| App.Query | multi-doc-rag-system/src/api/app.py:229-273 | /query answers 503 with the status's message unless Ready; when Ready it succeeds exactly when the pipeline answers, and otherwise fails with 500 and its error; snippets never exceed 203 characters |
| App.ReadyStore | multi-doc-rag-system/src/api/app.py:148-150 | a Ready state has a non-empty store |
| App.QueryReady | multi-doc-rag-system/src/api/app.py:249-268 | in a Ready state with accepted retrieval keys and collaborators that do not raise, /query succeeds with the pipeline's answer |
| App.QueryReadyRejected | multi-doc-rag-system/src/api/app.py:269-273 | in a Ready state, configured integer k keys make /query fail with 500 and the retriever's error, not "not initialized" |
| App.Cleanup | multi-doc-rag-system/src/api/app.py:276-289 | cleanup drops the store, fingerprint, document list and loaded list, and leaves status Idle without error |
| App.CleanupKeepsInv | multi-doc-rag-system/src/api/app.py:279-286 | the cleared state satisfies the invariant |
| App.Remaining | multi-doc-rag-system/src/api/app.py:306-309 | exactly the entries whose path is not selected remain |
| App.RemainingNoneSelected | multi-doc-rag-system/src/api/app.py:306-309 | selecting no recorded path leaves the list as it was |
| App.RemainingAppend | multi-doc-rag-system/src/api/app.py:306-309 | the filter keeps order and repeats: filtering a + b is filtering a, then b |
| App.RemainingSingle | multi-doc-rag-system/src/api/app.py:306-309 | a single entry stays exactly when its path is not selected |
| App.CleanupSelected | multi-doc-rag-system/src/api/app.py:299-331 | fails with 400 exactly when nothing is recorded; clears everything when nothing remains; otherwise rebuilds from the remaining entries |
| App.CleanupSelectedForgets | multi-doc-rag-system/src/api/app.py:306-331 | after a partial cleanup the invariant holds, every recorded entry was recorded before and is not selected, and a Ready state lists exactly its entries |
| StreamlitApp.DisplayName | multi-doc-rag-system/src/ui/streamlit_app.py:286-296 | the name is the basename, without the part before its first underscore when that part is exactly 32 characters long; it never holds a slash |
| StreamlitApp.FirstUnderscoreAfterUuid | multi-doc-rag-system/src/ui/streamlit_app.py:293-294 | in a stored upload name the first underscore is the one after the 32-character uuid |
| StreamlitApp.DisplayUploadPath | multi-doc-rag-system/src/ui/streamlit_app.py:331-341 | an upload saved under its uuid prefix is displayed under its original basename, underscores included |
| StreamlitApp.DisplayNameNoPrefix | multi-doc-rag-system/src/ui/streamlit_app.py:292-296 | a basename without a 32-character prefix before its first underscore is shown as it is |
| StreamlitApp.UploadEntries | multi-doc-rag-system/src/ui/streamlit_app.py:338-341 | one enabled entry per upload, with its saved path and display name |
| StreamlitApp.SavedPaths | multi-doc-rag-system/src/ui/streamlit_app.py:329-336 | one saved path per upload, in upload order |
| StreamlitApp.IndexRequest | multi-doc-rag-system/src/ui/streamlit_app.py:313-343 | the action only warns exactly when there is no upload and the stripped URL is blank; otherwise it builds a non-empty list of enabled entries |
| StreamlitApp.IndexRequestMatchesApi | multi-doc-rag-system/src/ui/streamlit_app.py:338-343 | the sidebar configures the same documents as the API's `_prepare_docs_list` with the stripped URL, and names each upload by its original basename |
| Paths.Basename | multi-doc-rag-system/src/utils/main_utils.py:152 | the basename holds no slash, ends the path, and is the whole path or follows a slash |
| Paths.SplitExt | multi-doc-rag-system/src/ingestion/extractor.py:29 | the extension is found exactly when some dot of the basename follows a character that is not a dot; it is then a dot followed by dot-free text that ends the basename, otherwise empty |
| Paths.BasenameOfJoin | multi-doc-rag-system/src/ui/streamlit_app.py:333 | the basename of a directory joined with a slash-free name is that name |
| Sorting.StableSort | multi-doc-rag-system/src/api/app.py:76 | Python's `sorted` returns a permutation in key order |
| Sorting.StableSortRanked | multi-doc-rag-system/src/retrieval/reranker.py:51-53 | the sort is stable: items with equal keys keep their original order |
| Text.Strip | multi-doc-rag-system/src/ui/streamlit_app.py:314 | strip leaves no whitespace at either end and removes only leading and trailing whitespace |
| Text.Lower | multi-doc-rag-system/src/ingestion/extractor.py:31 | lowercasing maps each character on its own and keeps the length |

## Left out

- Floating point: percentages, `lambda_mult`, cosine similarities and reranker scores are exact reals; float rounding and `np.float32` are not modelled.
- Character classes: `\w` and `lower()` are ASCII-only; Unicode letters and digits are not word characters here, and non-ASCII case mapping is not modelled. `\s` and `str.isspace` use CPython's whitespace set.
- CleanNormalize.NormalizeText: the exact output is stated (`CleanNormalize.NormalizeOrdinary`) only for text whose whitespace is spaces, tabs, line feeds and carriage returns. Other whitespace, such as a form feed or a no-break space, survives inside a stretch, so for such text the contract states the separations (`Gaps`) and the normalised shape but not which whitespace characters remain.
- Collaborators are parameters with no contract of their own: LangChain loaders, `RecursiveCharacterTextSplitter`, the tokenizer, FAISS, the cross-encoder, the embedder, the LLM and the prompt texts of `src/rag/prompts.py`, md5, BeautifulSoup and the markdown regex rewrites. `count_documents` is the length of the store.
- Chunking.LengthBasedRefinement: of the argument checks of LangChain's `TextSplitter` only the one against an overlap larger than the chunk size is modelled; the checks for a non-positive size or a negative overlap, present in some LangChain versions, are not. The same holds for Chunking.ChunkOne, Chunking.ChunkDocument and Pipelines.CleanedChunkable.
- Chunking.RefineIdempotent: stated only for token splitters whose pieces all fit the target (`SplitterFits`); a splitter that returns an oversized piece would have it split again on the second pass, and the splitter's algorithm is not modelled.
- Pipelines.IngestOutcome: when the overlap exceeds the target, which paths fail is stated in terms of the cleaned records by Pipelines.CleanedChunkable, not in terms of the path.
- Pipelines.PrepareVectorStore: every configured entry is taken to carry a `path` and a boolean `enabled` (`Records.DocEntry`). The `KeyError` of `doc_info["path"]` for an enabled entry without a path (`pipelines.py:86`, reported through the outer handler at 111-113) and the truthiness test of a non-bool `enabled` value (`pipelines.py:83`) are not modelled; the API (`app.py:117-122`) and the Streamlit front end (`streamlit_app.py:338-343`) always set both keys.
- Pipelines.PrepareSucceeds: the FAISS build (`pipelines.py:107`, `faiss_store.py:35-38`) is assumed not to raise; an embedder failure there is not modelled.
- Pipelines.PipelineRetrieve: the similarity search, the cross-encoder's `predict` (`reranker.py:50`, re-raised at `reranker.py:62-63`) and the MMR embedder (`retriever.py:136-142`, re-raised at `retriever.py:126-127`) are total functions, so their failures are not modelled.
- Pipelines.RetrievePrepared: success for accepted arguments relies on the same collaborators not raising.
- Pipelines.AnswerWithSources: `llm.invoke` (`pipelines.py:208`, `239`, `271`) is a total function, so an LLM failure is not modelled; neither are the retrieval collaborators' failures.
- App.QueryReady: the LLM and retrieval failures that would reach the 500 branch at `app.py:269-273` are not modelled; only the rejected-keyword failure is (`App.QueryReadyRejected`).
- Chunking.RefineFits: the token budget is proved only under the assumption that the token splitter keeps each piece within the target; the splitter's own algorithm is not modelled.
- The coverage of a document's text by its chunks is not stated, because it depends on the splitter, which is a parameter.
- `MyException` formatting (src/exception.py is not part of this model): errors carry the message text the code builds, not the file and line information the exception adds. Logging and `print` are left out.
- Extractor.ExtractDocumentInfo: the `except MyException` branch, which logs and returns `None`, cannot be reached from the modelled body, because nothing in it raises `MyException`. Only the re-raise of other exceptions is modelled.
- Configuration values: `target_chunk_size`, `chunk_overlap` and `stuff_context_token_limit` are integers; a `None` value or a missing section is not modelled.
- Upload persistence: `_persist_uploads_async` and the Streamlit file writes are I/O and are left out. The saved paths and the uuids are inputs, and the `/load` 500 path for a failed save is not modelled.
- Concurrency: the background task of `/load` is modelled as a later, separate call of `ProcessDocuments`. The file system does not change in between, the `Processing` status is never observed mid-build, and the single-writer requirement is not modelled.
- `/status` and `/health` only report state and are left out.
- Fingerprint: md5 is one abstract function. Collisions are not excluded, so the fingerprint's sensitivity to a changed byte is not stated.
- StreamlitApp.IndexRequest: the synchronous `prepare_vector_store` call that follows in the sidebar, and the rest of the Streamlit UI, are left out; the same preparation is modelled in `Pipelines`.
- The web and markdown branches of `clean_document_structure` are parameters, except for the non-ASCII removal, which is modelled.
