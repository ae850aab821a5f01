# A verified model of a small retrieval-augmented question-answering system

The system answers questions about a folder of documents in two ways.

- **Python pipeline** (`rag/ingest.py`, `rag/rag_core.py`).
  - Ingestion finds the `.txt`, `.md`, `.pdf` and `.docx` files.
  - It reads each one through the reader its suffix selects.
  - It cuts the text into overlapping character windows and tags each piece with its file name.
  - It embeds the pieces 32 at a time and writes a flat vector index (`faiss.index`) and the chunk metadata (`chunks.json`).
  - Answering loads the two files through a single-slot cache keyed by their modification times.
  - It asks the index for `min(top_k, n)` neighbours and drops ids outside the metadata.
  - It composes a context of at most 800 characters (plus one cut-off tail) and hands it to a chat model.
- **Browser retriever** (`web/src/rag/tfidf.ts`, `web/src/rag/knowledge.ts`, `web/src/ui.ts`).
  - A second chunker gives ids `source::0`, `source::1`, … and prefers to cut at a late paragraph break.
  - A tokenizer with a stop-word list feeds term and document frequency counts.
  - A query keeps the chunks with a positive similarity, best first, and returns at most `max(1, topK)` of them.
  - The page escapes HTML, lists the sources under an answer as `[#1]`, `[#2]`, …, and builds the prompt.

The Dafny modules follow the source files.

| file | module | models |
|---|---|---|
| `wrappers.dfy` | `Wrappers` | `Option`, `Result` |
| `strings.dfy` | `Strings` | Python `strip`/`rstrip` and JavaScript `trim` (different whitespace sets), Python slicing and `String.prototype.slice`, `join`, ASCII lower-casing, decimal rendering, counting |
| `store.dfy` | `Store` | the storage directory: the two files, their contents and modification times |
| `ingest.dfy` | `Ingest` | `rag/ingest.py` |
| `rag_core.dfy` | `RagCore` | `rag/rag_core.py`; the module-level cache is the class `IndexCache` |
| `tfidf.dfy` | `Tfidf` | `web/src/rag/tfidf.ts`; a JavaScript `Map` is `OrderedMap` (keys in insertion order plus the values) |
| `knowledge.dfy` | `Knowledge` | `web/src/rag/knowledge.ts` |
| `ui.dfy` | `Ui` | `escapeHtml`, `formatSources`, `buildPrompt` of `web/src/ui.ts` |

Loops in the source are methods with loop invariants. Each method is proved equal to a specification function, and the promised properties are lemmas about that function:

| method | specification function |
|---|---|
| `Ingest.ChunkText` | `ChunkPieces` |
| `Ingest.SlideWindows` | `SlideFrom`, the loop's state after each window, and `Pieces` of the windows `Spans` visits |
| `Ingest.BuildChunks` | `ChunksOf` and `FileCount` over `FindDocuments` |
| `Ingest.EmbedBatches` | `EmbedAll` |
| `RagCore.CollectResults` | `Collected` |
| `RagCore.BuildContext` | `ContextFrom` |
| `Tfidf.TermFrequencies` | `TermCountsUpTo` after each token, `TermCountsOf` at the end |
| `Tfidf.ChunkText` | `JsChunks` |
| `Tfidf.SlideJsWindows` | `Windows` |
| `Tfidf.BuildTfidfIndex` | `BuiltUpTo` after each chunk, `IndexOver` at the end |
| `Tfidf.QueryIndex` | `Ranked` |
| `Knowledge.BuildKnowledgeIndexFromTexts` | `AllChunks` and `Dedup` |

Expression-level code (`read_document`, `tokenize`, `escapeHtml`, `formatSources`, `buildPrompt`, the source deduplication) is written as functions.

Outside influences enter as parameters:

- The embedding provider is a function from texts to vectors. Its one contract is one vector per text (`OnePerInput`).
- The vector search is a function returning `(score, id)` pairs.
- The chat model is a function of the question and the context.
- The similarity of the TF-IDF query is a function of the query's term counts and the chunk position.
- The Unicode word pattern `[\p{L}\p{N}]+` is a predicate on characters.
- `toFixed(3)` is a function from scores to strings.
- The file system is the list of walked entries (name, regular-file flag, what each decoding library makes of it) and the storage directory's state, modification times included.

## Model

| member | source | states |
|---|---|---|
| Ingest.ReaderFor | rag/ingest.py:62-69 | a reader exists exactly for the four supported suffixes; `.txt` and `.md` share the text reader, `.pdf` alone selects the PDF reader and `.docx` alone the DOCX reader |
| Ingest.Suffix | rag/ingest.py:60 | `PurePath.suffix` of a file name (see `SuffixSpec`) |
| Ingest.SuffixSpec | rag/ingest.py:60 | the suffix is non-empty exactly when the name has a last dot that is neither its first nor its last character, and then it is the name's tail from that dot, with no other dot |
| Ingest.ReadPdf | rag/ingest.py:25-36 | the non-blank stripped pages tagged `[Page i]`, joined by blank lines, and "" on failure (see `PagePartsSpec`, `ReadPdfEmpty`) |
| Ingest.PagePartsSpec | rag/ingest.py:30-33 | a part is exactly a non-blank stripped page tagged with its 1-based page number; there are at most as many parts as pages |
| Ingest.ReadPdfEmpty | rag/ingest.py:25-36 | the PDF text is "" exactly when the library fails or every page is blank |
| Ingest.ReadDocx | rag/ingest.py:39-47 | the non-blank stripped paragraphs joined by newlines, and "" on failure (see `ParagraphPartsSpec`, `ReadDocxEmpty`) |
| Ingest.ParagraphPartsSpec | rag/ingest.py:44 | a part is exactly a non-empty stripped paragraph; there are at most as many parts as paragraphs |
| Ingest.ReadDocxEmpty | rag/ingest.py:39-47 | the DOCX text is "" exactly when the library fails or every paragraph is blank |
| Ingest.FindDocuments | rag/ingest.py:17-22 | a walked entry is returned exactly when it is a regular file whose lower-cased suffix is supported; no entry is added |
| Ingest.ReadDocument | rag/ingest.py:58-70 | an unknown suffix reads as ""; only the text reader can raise, and it raises exactly when decoding fails (see `ReadDocumentReaders`) |
| Ingest.ReadDocumentReaders | rag/ingest.py:62-70 | `.txt`/`.md` give the decoded text, `.pdf` what `_read_pdf` gives, `.docx` what `_read_docx` gives |
| Ingest.CleanText | rag/ingest.py:79 | every line right-stripped, rejoined by newlines, stripped (see `CleanOfBlank`, `CleanOfNonBlank`, `SplitLinesStep`) |
| Ingest.Spans | rag/ingest.py:84-97 | the windows the loop visits (see `SpansWithin`, `SpansShape`, `SpansCover`) |
| Ingest.ChunkPieces | rag/ingest.py:73-99 | what `chunk_text` returns (see `ShortCases`, `ChunksBounded`, `WindowedChunks`, `NonBlankGivesNoEmptyPiece`) |
| Ingest.ChunkText | rag/ingest.py:73-99 | the guards and the sliding-window loop compute `ChunkPieces` |
| Ingest.SlideWindows | rag/ingest.py:84-99 | the loop appends the non-empty stripped texts of the windows `Spans` visits, in order |
| Ingest.SlideRound | rag/ingest.py:88-97 | one pass of the loop body: it stops exactly when the window reaches the end of the text and otherwise goes on `chunk_size - chunk_overlap` further, with the loop's remaining result unchanged |
| Ingest.ShortCases | rag/ingest.py:75-82 | empty text or `chunk_overlap >= chunk_size` gives `[]`; a cleaned text no longer than `chunk_size` gives exactly `[cleaned]` |
| Ingest.SpansWithin | rag/ingest.py:87-97 | every window lies inside the text, is non-empty and is at most `chunk_size` wide |
| Ingest.SpansShape | rag/ingest.py:87-97 | window `i` starts `i * (chunk_size - chunk_overlap)` in, every window but the last is `chunk_size` wide, and the last ends at the end of the text |
| Ingest.SpansStarts | rag/ingest.py:85-97 | window `i` starts `i * (chunk_size - chunk_overlap)` after the position the loop starts from |
| Ingest.SpansWidths | rag/ingest.py:88-97 | every window the loop does not break after is `chunk_size` wide |
| Ingest.SpansLast | rag/ingest.py:87-95 | a loop entered inside the text visits at least one window, and its last window ends at the end of the text |
| Ingest.SlideFromPieces | rag/ingest.py:84-99 | entered at any window with any chunks already collected, the loop appends the non-empty stripped texts of the remaining windows |
| Ingest.PiecesCons | rag/ingest.py:89-92 | a window's stripped text is appended exactly when it is not empty, before the chunks of the later windows |
| Ingest.NonEmptyMembers | rag/ingest.py:91-92 | the kept chunks are exactly the non-empty window texts |
| Ingest.PiecesWithin | rag/ingest.py:88-92 | a kept chunk of a window inside the text and at most `chunk_size` wide is a non-empty stripped slice of the text at most `chunk_size` long |
| Ingest.SpansCover | rag/ingest.py:87-97 | with a non-negative overlap every character index lies in some window |
| Ingest.WindowedChunks | rag/ingest.py:84-99 | in the windowed branch every chunk is a non-empty stripped substring of the cleaned text, at most `chunk_size` long |
| Ingest.ChunksBounded | rag/ingest.py:73-99 | no chunk is longer than `chunk_size` |
| Ingest.SplitLinesStep | rag/ingest.py:79 | `splitlines` takes the characters up to the next line boundary as one line, skips a `\r\n` pair as one boundary, and ends with the rest of the text |
| Ingest.SplitLinesChars | rag/ingest.py:79 | every character of a line comes from the text |
| Ingest.SplitLinesKeeps | rag/ingest.py:79 | every character that is not a line boundary lies in some line |
| Ingest.CleanOfBlank | rag/ingest.py:79 | whitespace-only text cleans to "" |
| Ingest.CleanOfNonBlank | rag/ingest.py:79 | text with a non-whitespace character does not clean to "" |
| Ingest.WhitespaceGivesEmptyPiece | rag/ingest.py:79-82 | whitespace-only text gives the single empty chunk `[""]` |
| Ingest.NonBlankGivesNoEmptyPiece | rag/ingest.py:79-99 | text that is not blank gives no empty chunk |
| Ingest.BuildChunks | rag/ingest.py:102-117 | the loop returns the chunk list `ChunksOf` and the count `FileCount` of the found documents |
| Ingest.AppendTagged | rag/ingest.py:112-113 | one chunk per piece, in order, each tagged with the file name |
| Ingest.ChunksOfAppend | rag/ingest.py:107-117 | chunks are grouped by file in file order, and file counts add up |
| Ingest.SkippedFile | rag/ingest.py:108-115 | a file whose read raises or whose text is blank adds no chunk and is not counted |
| Ingest.ChunkProvenance | rag/ingest.py:107-117 | every chunk has non-empty text and the name of a counted file; the count is at most the number of files |
| Ingest.BatchesPartition | rag/ingest.py:150-155 | the batches are non-empty, at most 32 long (all but the last exactly 32), and concatenate back to the texts |
| Ingest.EmbedAllParallel | rag/ingest.py:150-157 | with a provider that keeps its contract there is one vector per chunk; with a provider that embeds text by text, vector `i` embeds chunk `i` |
| Ingest.EmbedBatches | rag/ingest.py:151-157 | the batch loop computes `EmbedAll`: one provider call per batch of `Batches`, answers concatenated in order |
| Ingest.EmbedAllBatches | rag/ingest.py:154-157 | `EmbedAll` is the concatenation of the provider's answers for the batches `Batches` gives, in order |
| Ingest.Ingest | rag/ingest.py:137-186 | no chunks raises "No documents found" before any embedding or write; rows of unequal length are the only other failure, and either failure writes nothing; chunks with rows of one length always succeed, and then both files are written (rows parallel to the chunk records) and the stats report the chunk count, the file count, the dimension and the two paths as pathlib joins them (`PathJoin`) |
| Store.PathJoin | rag/ingest.py:168-169 | `str(Path(dir) / name)` (see `PathJoinNormalises`, `PathJoinEnds`, `ComponentsNormal`) |
| Store.ComponentsNormal | rag/ingest.py:133 | a parsed path keeps no empty, "." or slash-holding component |
| Store.ComponentsTrailingSlash | rag/ingest.py:133 | a trailing slash adds no component |
| Store.PathJoinNormalises | rag/ingest.py:168-169 | an empty directory gives the bare name; a trailing slash or a leading "./" on a relative directory changes nothing |
| Store.PathJoinEnds | rag/ingest.py:168-169 | the joined path ends with the name, after a slash when anything precedes it |
| RagCore.IndexCache.constructor | rag/rag_core.py:19 | the cache starts empty |
| RagCore.IndexCache.LoadIndexCached | rag/rag_core.py:22-47 | a missing file raises `IndexNotFound` and leaves the cache alone; a cached key returns its stored pair without loading; a miss loads the files and leaves exactly that one entry; a cache of at most one entry keeps at most one |
| RagCore.IndexCache.Insert | rag/rag_core.py:39-45 | storing a new key, then deleting all older keys, leaves exactly the new entry |
| RagCore.ToRetrieved | rag/rag_core.py:80-85 | text and score are copied, and a record without a source becomes "unknown" |
| RagCore.Collected | rag/rag_core.py:77-85 | the chunks of the in-range pairs, in search order (see `CollectedSpec`) |
| RagCore.CollectedSpec | rag/rag_core.py:77-87 | the results are exactly the in-range pairs' chunks, in search order, and never more than the pairs |
| RagCore.PicksKeep | rag/rag_core.py:79-85 | an in-range pair adds its chunk after the earlier results |
| RagCore.PicksSkip | rag/rag_core.py:79-80 | an out-of-range pair adds nothing |
| RagCore.CollectResults | rag/rag_core.py:77-87 | the loop computes `Collected`, and every result comes from an in-range pair |
| RagCore.ContextFrom | rag/rag_core.py:115-130 | the context parts the budget loop collects (see `ContextFromSpec`, `ContextBudget`, `ContextShape`) |
| RagCore.RetrieveLoaded | rag/rag_core.py:71-87 | the search is asked for `min(top_k, len(chunks))` neighbours of the embedded question; with a search that keeps to `k` the results are at most that many; every result text is a metadata text |
| RagCore.Retrieve | rag/rag_core.py:55-87 | a missing index fails with `IndexNotFound` and leaves the cache alone; otherwise the results are those of `RetrieveLoaded` on what the cache returned, the cache then holds that pair under the files' key, and a single-slot cache stays single-slot |
| RagCore.ContextFromSpec | rag/rag_core.py:115-130 | the context is the longest prefix of parts fitting in 800 characters, then the first overflowing part cut to the budget left plus "..." when more than 50 characters are left |
| RagCore.ContextBudget | rag/rag_core.py:115-130 | there are at most as many parts as chunks, and the parts total at most 803 characters |
| RagCore.ContextShape | rag/rag_core.py:119-130 | every part but possibly the last is the `[source] text` of the chunk at its position |
| RagCore.BuildContext | rag/rag_core.py:115-130 | the loop computes `ContextFrom` of the tagged chunks |
| RagCore.AnswerWithRag | rag/rag_core.py:90-141 | a missing index fails and leaves the cache alone; otherwise the cache ends as after `Retrieve`; an empty retrieval answers the fixed "No relevant information…" text without the chat model; otherwise the chat model gets the question and the parts joined by blank lines, and the full retrieval is returned |
| Tfidf.SetKeepsWf | web/src/rag/tfidf.ts:37 | `Map.set` keeps the old keys in their places, appends at most the new key, keeps keys and values in step, stores the value and changes no other key |
| Tfidf.WordsFromSpec | web/src/rag/tfidf.ts:23 | every match of the word pattern is non-empty and made of word characters of the text |
| Tfidf.WordsFromRuns | web/src/rag/tfidf.ts:23 | every match is a contiguous slice of the text made of word characters that cannot be extended on either side |
| Tfidf.WordsFromCover | web/src/rag/tfidf.ts:23 | every word character of the text lies in some match |
| Tfidf.KeepTokensSpec | web/src/rag/tfidf.ts:29-32 | a token is kept exactly when it is a trimmed word of 2 to 40 characters and not a stop word |
| Tfidf.Tokenize | web/src/rag/tfidf.ts:21-33 | the tokens of a text (see `TokenizeSpec`) |
| Tfidf.TokenizeSpec | web/src/rag/tfidf.ts:21-33 | every token is 2 to 40 characters, not a stop word, made of word characters of the lower-cased text; every such word is a token |
| Tfidf.TermCountsWf | web/src/rag/tfidf.ts:36-37 | the map stays well formed after every token |
| Tfidf.TermCountsKeys | web/src/rag/tfidf.ts:36-37 | after `n` tokens the keys are exactly those tokens |
| Tfidf.TermCountsCounts | web/src/rag/tfidf.ts:36-37 | after `n` tokens each text maps to its number of occurrences among them |
| Tfidf.TermCountsSum | web/src/rag/tfidf.ts:36-37 | after `n` tokens the counts add up to `n` |
| Tfidf.TermCountsSpec | web/src/rag/tfidf.ts:35-39 | the keys are the tokens, each count is the token's number of occurrences, and the counts add up to the token count |
| Tfidf.TermFrequencies | web/src/rag/tfidf.ts:35-39 | the loop computes `TermCountsOf`, with the counting properties above |
| Tfidf.LastBreak | web/src/rag/tfidf.ts:73 | `lastIndexOf('\n\n')`: -1 or a break position, with no break after it |
| Tfidf.ChunkText | web/src/rag/tfidf.ts:59-88 | the cleaning, the empty-text guard and the loop compute `JsChunks` |
| Tfidf.SlideJsWindows | web/src/rag/tfidf.ts:63-87 | the loop emits the numbered window chunks `Windows` from the start of the cleaned text |
| Tfidf.WindowPiece | web/src/rag/tfidf.ts:68-80 | a loop round computes the text of the window at `start`, whose shape `WindowCut` states |
| Tfidf.CutWindow | web/src/rag/tfidf.ts:68-77 | the window after the paragraph cut (see `WindowCut`, `CutWithin`) |
| Tfidf.WindowCut | web/src/rag/tfidf.ts:68-80 | a window that is not the last and has its last blank-line break past both 120 and 60% of its length becomes the trimmed text before that break; every other window is only trimmed |
| Tfidf.Windows | web/src/rag/tfidf.ts:63-87 | the numbered window chunks from a start position (see `WindowsIds`, `WindowsTexts`, `WindowsNumbered`) |
| Tfidf.JsChunks | web/src/rag/tfidf.ts:59-88 | what `chunkText` returns (see `ChunkTextSpec`, `EmptyCleanNoChunks`) |
| Tfidf.EmptyCleanNoChunks | web/src/rag/tfidf.ts:60-61 | text that cleans to "" gives no chunk |
| Tfidf.StalledStart | web/src/rag/tfidf.ts:83-84 | with `overlap >= chunkSize` the start never moves forward, and a text longer than one window does not end the loop at the first window |
| Tfidf.CutWithin | web/src/rag/tfidf.ts:68-80 | a chunk text, paragraph cut or not, is a substring of its window |
| Tfidf.WindowsIds | web/src/rag/tfidf.ts:79-82 | chunk `k` has id `source::k` and carries `source` |
| Tfidf.WindowsTexts | web/src/rag/tfidf.ts:67-85 | every chunk text is a substring of the cleaned text, at most `chunkSize` long |
| Tfidf.WindowsNumbered | web/src/rag/tfidf.ts:65-82 | the chunks of a whole text are numbered from 0, carry `source` and have pairwise distinct ids |
| Tfidf.ChunkTextSpec | web/src/rag/tfidf.ts:59-88 | ids are `source::0`, `source::1`, … in emission order and pairwise distinct, every chunk carries `source`, and every text is at most `chunkSize` long |
| Tfidf.ChunkIdInjective | web/src/rag/tfidf.ts:79 | distinct positions give distinct ids |
| Tfidf.DocCountBounded | web/src/rag/tfidf.ts:94-105 | a count of chunks is at most the chunk count, and positive exactly when some chunk qualifies |
| Tfidf.DocCountStep | web/src/rag/tfidf.ts:94-104 | one more chunk adds one to a term's document count exactly when it holds the term |
| Tfidf.DocFreqBounded | web/src/rag/tfidf.ts:94-105 | every document frequency lies between 1 and the chunk count |
| Tfidf.IncrementAll | web/src/rag/tfidf.ts:100-104 | each of the distinct terms goes up by one (from 0 when absent) and no other key changes |
| Tfidf.CountTerms | web/src/rag/tfidf.ts:95-96 | a chunk's term counts have exactly its tokens as keys |
| Tfidf.CountDocument | web/src/rag/tfidf.ts:99-104 | adding one document's distinct terms keeps `docFreq` equal to the document counts |
| Tfidf.IndexChunk | web/src/rag/tfidf.ts:94-105 | one loop round extends the counts of the first `i` chunks to the first `i + 1` |
| Tfidf.BuiltStep | web/src/rag/tfidf.ts:97-104 | the counts of chunk `i` and the frequencies over one more chunk extend what was built |
| Tfidf.BuildTfidfIndex | web/src/rag/tfidf.ts:90-105 | one term-count map per chunk, in order, and `docFreq[t]` is the number of chunks holding `t`, between 1 and the chunk count |
| Tfidf.PositivesSpec | web/src/rag/tfidf.ts:137-141 | a hit is kept exactly when it is some chunk with its positive score |
| Tfidf.InsertPerm | web/src/rag/tfidf.ts:143 | insertion adds exactly the inserted hit |
| Tfidf.InsertSorted | web/src/rag/tfidf.ts:143 | insertion into a descending list keeps it descending |
| Tfidf.InsertBelow | web/src/rag/tfidf.ts:143 | insertion adds no hit scoring above a bound of the list and the hit |
| Tfidf.ConsSorted | web/src/rag/tfidf.ts:143 | a hit scoring at least every hit of a descending list can go in front of it |
| Tfidf.InsertSpec | web/src/rag/tfidf.ts:143 | inserting into a descending list keeps it descending and adds exactly that hit |
| Tfidf.SortByScore | web/src/rag/tfidf.ts:143 | the stable sort by descending score (see `SortByScoreSpec`, `SortByScoreStable`) |
| Tfidf.SortByScoreSorted | web/src/rag/tfidf.ts:143 | the sort is descending by score |
| Tfidf.SortByScorePerm | web/src/rag/tfidf.ts:143 | the sort is a permutation of the hits |
| Tfidf.SortByScoreSpec | web/src/rag/tfidf.ts:143 | the sort is descending by score and a permutation of the hits |
| Tfidf.InsertWithScore | web/src/rag/tfidf.ts:143 | an inserted hit lands before every hit of equal score and leaves their relative order unchanged |
| Tfidf.SortByScoreStable | web/src/rag/tfidf.ts:143 | the sort is stable, as `Array.prototype.sort` is: for every score, the hits with that score keep their input order |
| Tfidf.RankedMembers | web/src/rag/tfidf.ts:137-143 | the ranked hits are descending, a permutation of the positive hits, and each a chunk with its positive score |
| Tfidf.SortedPrefix | web/src/rag/tfidf.ts:144 | a prefix of a descending list is descending and nothing after it outscores it |
| Tfidf.TopHits | web/src/rag/tfidf.ts:137-144 | the first `n` ranked hits are `min(n, positives)` many, descending, positive and from the index, and no dropped hit outscores a kept one |
| Tfidf.QueryIndex | web/src/rag/tfidf.ts:127-145 | the result is the first `max(1, topK)` of the positive hits sorted by descending score |
| Knowledge.DedupSpec | web/src/rag/knowledge.ts:54 | `Array.from(new Set(xs))` lists each value of `xs` once, taken from its first occurrence, in the order of those occurrences |
| Knowledge.Dedup | web/src/rag/knowledge.ts:54 | `Array.from(new Set(xs))` (see `DedupSpec`) |
| Knowledge.ChunksExist | web/src/rag/knowledge.ts:49 | a text gives no chunks exactly when it cleans to "" |
| Knowledge.FileSources | web/src/rag/knowledge.ts:49-50 | the chunks of one input carry exactly that input's source, when its text is not blank |
| Knowledge.HasSourceAppend | web/src/rag/knowledge.ts:49 | concatenated chunk lists carry the sources of both |
| Knowledge.SomeInputSnoc | web/src/rag/knowledge.ts:47-51 | an input list has a qualifying input exactly when its prefix or its last input does |
| Knowledge.AllChunksSources | web/src/rag/knowledge.ts:47-51 | a source occurs among the chunks exactly when some input with that source has a text that is not blank |
| Knowledge.SourcesSpec | web/src/rag/knowledge.ts:54 | `sources` is duplicate-free and lists exactly the sources of inputs that are not blank |
| Knowledge.BuildKnowledgeIndexFromTexts | web/src/rag/knowledge.ts:40-56 | sizes default to 900 and 120; the chunks are the inputs' chunks concatenated in order; the index is built over exactly them; `sources` is their deduplicated sources and `chunksCount` their number |
| Ui.EscapeRoundTrip | web/src/ui.ts:23-25 | decoding the five entities recovers the escaped text |
| Ui.EscapeInjective | web/src/ui.ts:23-25 | distinct texts escape to distinct HTML |
| Ui.EscapeConcat | web/src/ui.ts:24 | escaping is character by character |
| Ui.EscapeNoMarkup | web/src/ui.ts:24 | escaped text holds no raw `<`, `>`, `"` or `'` |
| Ui.EscapePlain | web/src/ui.ts:24 | text without the five characters is unchanged |
| Ui.EscapeHtml | web/src/ui.ts:23-25 | `escapeHtml` (see `EscapeRoundTrip`, `EscapeInjective`, `EscapeNoMarkup`, `EscapePlain`) |
| Ui.Snippet | web/src/ui.ts:29 | a text of at most 240 characters is shown whole; a longer one as its first 240 characters and "…" |
| Ui.FormatSourcesAppend | web/src/ui.ts:27-33 | one entry per hit, numbered `[#i+1]` in hit order, joined by blank lines |
| Ui.FormatSourcesFirst | web/src/ui.ts:28-32 | the list opens with the first hit's entry, labelled `[#1]` |
| Ui.FormatSources | web/src/ui.ts:27-33 | `formatSources` (see `FormatSourcesAppend`, `FormatSourcesFirst`) |
| Ui.ContextFallback | web/src/ui.ts:40 | "No relevant context found." is the context exactly when there is no hit |
| Ui.PromptText | web/src/ui.ts:40-54 | the prompt is the header lines, the context block verbatim, then the question lines, joined by newlines |
| Ui.PromptQuestion | web/src/ui.ts:51 | the question appears verbatim after "User question: " |
| Ui.PromptEnds | web/src/ui.ts:42-54 | the prompt opens with the system line and ends with the answer cue |
| Ui.BuildPrompt | web/src/ui.ts:35-55 | `buildPrompt` (see `PromptText`, `PromptQuestion`, `PromptEnds`, `ContextFallback`) |
| Strings.TrimSpec | rag/ingest.py:79 | stripping gives a contiguous slice of the text that begins and ends with a non-whitespace character, with only whitespace removed before and after it, and "" exactly for whitespace-only text |
| Strings.TrimTwice | web/src/rag/tfidf.ts:75-80 | trimming an already trimmed text changes nothing |
| Strings.JoinEmpty | rag/ingest.py:34 | joining non-empty parts gives "" exactly for no parts |
| Strings.NatToStringInjective | web/src/rag/tfidf.ts:79 | distinct numbers render to distinct decimal strings |

## Left out

- The Python keyword defaults (`chunk_size=500`, `chunk_overlap=50`, `top_k=3`, `data_dir="data"`, `storage_dir="storage"`, the embedding and chat model names) are not modelled: `Ingest.ChunkText`, `Ingest.Ingest`, `RagCore.Retrieve` and `RagCore.AnswerWithRag` take every argument explicitly. The JavaScript defaults of `buildKnowledgeIndexFromTexts` (900 and 120) are modelled.
- `Store.PathJoin` follows POSIX `PurePosixPath` parsing; Windows paths and `os.PathLike` objects other than strings are not modelled.

- Embedding models, the chat models, FAISS's search and its file format are outside the model. They are opaque parameters, and the index file holds the added rows.
- The TF-IDF weights (`Math.log` idf, `1 + log(freq)`), `l2Norm` and `cosineSim` are floating point. `Tfidf.QueryIndex` takes the cosine similarity as a function `sim`, and the index keeps the term counts and document frequencies that the weights are computed from.
- `Tfidf.TokenizeSpec`: lower-casing is ASCII only. `toLowerCase` and `str.lower` also fold non-ASCII letters.
- String lengths count characters. JavaScript counts UTF-16 code units, so a text with characters outside the Basic Multilingual Plane is cut at different places by `chunkText` and `formatSources`.
- `Tfidf.LateBreak` compares with `0.6 * length` in exact arithmetic, not in binary floating point.
- `Tfidf.ChunkText` requires that the loop ends: the cleaned text is empty, `overlap < chunkSize`, or the text fits in one window. Otherwise the source loops forever, as `Tfidf.StalledStart` shows, so there is no result to model.
- The `seen` set in `buildTfidfIndex` never rejects a term, because the keys of a `Map` are distinct. The model iterates the keys directly.
- The `vectors` and `idf` maps of the TF-IDF index are float data and are not built. The index keeps `termFreqs` and `docFreq` instead.
- `retrieve`'s `cache_func` parameter is covered by `RagCore.RetrieveLoaded`, which takes whatever pair a loader returned. `RagCore.Retrieve` uses the module's own cache.
- `RagCore.RetrieveLoaded`: the length bound holds only for a search that returns at most `k` pairs (`SearchBounded`), as FAISS does.
- The cache key is the pair of modification times. The source formats the two floats into one string, taken here to be injective.
- `Ingest.Ingest`: `np.array` on rows of unequal length raises. The model reports that as the error `InhomogeneousVectors` and writes nothing. The float32 conversion is not modelled.
- The JSON encoding of `chunks.json` and the path rendering of `Path.resolve()` in the error message are left out. The error carries the data directory as given.
- File-system walking, PDF and DOCX parsing, and the UTF-8/cp1252 decoding fallback are given values of each walked entry.
- `loadDefaultKnowledge` and `createApp` (fetching, the DOM, `localStorage`, event handling) are not part of this model. Neither are the Streamlit front-ends and the start script.
- The code has no concurrency, and the cache is modelled single-threaded.

## Findings

| source | as written | input that shows it | evidently intended | confidence | as-written member | corrected member |
|---|---|---|---|---|---|---|
| web/src/rag/tfidf.ts:83-84 | `start = Math.max(0, start + chunkSize - overlap)` does not advance when `overlap >= chunkSize`, so `chunkText` never returns | `chunkText("s", "x".repeat(101), 100, 120)`: the first window ends at 100 < 101, and the next start is `max(0, -20) = 0` again | the loop advances, as it does whenever `overlap < chunkSize` (the defaults 900/120) | medium, not executed | Tfidf.StalledStart | Tfidf.ChunkText and Tfidf.ChunkTextSpec, over the inputs `Terminates` admits |
