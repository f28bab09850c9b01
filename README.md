# Screenshot search core in Dafny

A model of the retrieval core of a screenshot search application. Screenshots
are stored as documents carrying the OCR text, a visual description, the text
made of both, and an embedding of that text; a query is embedded, every stored
document is scored against it, and the best `top_k` documents are returned with
their score and without their embedding. Storage is MongoDB when a connection
string is configured and creating the client does not raise, and an in-memory
list otherwise. Creating the client does not contact the server, so a server
that cannot be reached still gives MongoDB mode; the model expresses that as a
`Connected` outcome followed by `remoteFault` on every later call. The OCR
side contributes a text normaliser that joins the non-blank, stripped lines of
the recognised text with single spaces.

Modules:

- `Wrappers` (`wrappers.dfy`): `Option`, used wherever a Python call can raise.
- `OcrText` (`ocr_text.dfy`): `OCRService._clean_text` and `extract_text` as
  functions over `string`, with Python's `split('\n')`, `strip()` and
  `' '.join` written out, and lemmas about them.
- `Ranking` (`ranking.dfy`): `np.argsort(similarities)[::-1][:top_k]` as a
  method that builds the descending index order and slices it, proved against
  `IsTopSelection`, plus lemmas about any valid selection.
- `SearchStore` (`search_store.dfy`): the `SearchService` class with fields
  `useLocal`, `localData` and `collection`, its constructor (backend choice),
  `StoreScreenshot`, `Search`, `GetTotalScreenshots`, and the ranking tail
  shared by the local and MongoDB searches.

The embedding model and cosine similarity are abstract: the service holds them
as function values (`Encoder`: text to embedding rows, or `None` when encoding
raised; `Scorer`: query and document embeddings to a sequence of reals of any
length). Whether a MongoDB call raises is a `remoteFault` parameter of the
operation that makes it, and the outcome of connecting is a `Connection`
parameter of the constructor. Scores are `real`s.

The order among equal scores is deliberately left open: numpy's default
`argsort` is not stable and its result is reversed, so the code does not
break ties by insertion order, and the model does not promise it either.
`TopSelectionScoresAgree` proves that this is the only freedom: every valid
selection has the same score at every position. Likewise the code assigns no
identifier of its own to a stored document (MongoDB's `_id` is projected away
by `find`) and does not trim the combined text, so the model does neither.

## Model

| member | source | states |
|---|---|---|
| `OcrText.Split` | services/ocr_service.py:36 | `text.split('\n')` yields at least one piece and no piece holds a line feed |
| `OcrText.Join` | services/ocr_service.py:37 | `sep.join(parts)` contains every character of every part, and each of its characters comes from a part or the separator |
| `OcrText.SplitJoinRoundTrip` | services/ocr_service.py:36 | joining the pieces of `split('\n')` with line feeds gives the input back, so the split loses nothing |
| `OcrText.SplitWithoutNewline` | services/ocr_service.py:36 | a string without line feed splits into itself alone |
| `OcrText.LStrip` | services/ocr_service.py:36 | `lstrip()` is never longer than its input and never starts with whitespace |
| `OcrText.RStrip` | services/ocr_service.py:36 | `rstrip()` is never longer than its input and never ends with whitespace |
| `OcrText.Strip` | services/ocr_service.py:36 | `strip()` is never longer than its input and has whitespace at neither end |
| `OcrText.LStripSpec` | services/ocr_service.py:36 | `lstrip()` leaves a suffix of the input, what it removed is all whitespace, and the result does not start with whitespace |
| `OcrText.RStripSpec` | services/ocr_service.py:36 | `rstrip()` leaves a prefix of the input, what it removed is all whitespace, and the result does not end with whitespace |
| `OcrText.StripSpec` | services/ocr_service.py:36 | `line.strip()` has no outer whitespace, keeps every non-whitespace character, and is empty (falsy) exactly when the line is blank |
| `OcrText.StripOfNoOuterWs` | services/ocr_service.py:36 | stripping a string with no outer whitespace returns it unchanged |
| `OcrText.StripNonBlank` | services/ocr_service.py:36 | every line the comprehension keeps is non-empty and is the stripped form of some input line, and the stripped form of every non-blank input line is kept |
| `OcrText.StripNonBlankAppend` | services/ocr_service.py:36 | the comprehension works line by line in input order: on two blocks of lines it gives the result for the first block followed by the result for the second |
| `OcrText.StripNonBlankOfStripped` | services/ocr_service.py:36 | lines that are already non-empty and stripped are all kept, unchanged and in order |
| `OcrText.SplitAfterLine` | services/ocr_service.py:36 | splitting a line without line feed, a line feed and a rest gives that line followed by the pieces of the rest |
| `OcrText.SplitOfJoinedLines` | services/ocr_service.py:36 | lines without line feeds, joined with line feeds, split back into exactly those lines |
| `OcrText.StripNonBlankTidy` | services/ocr_service.py:36 | every line kept by the comprehension is non-empty, stripped and free of line feeds |
| `OcrText.StripNonBlankKeepsNonWs` | services/ocr_service.py:36 | stripping the lines and dropping the blank ones keeps every non-whitespace character, in order |
| `OcrText.JoinTidy` | services/ocr_service.py:37 | joining such lines with one space gives a string with no line feed and no outer whitespace, non-empty when some line was kept |
| `OcrText.JoinKeepsNonWs` | services/ocr_service.py:37 | joining with a whitespace separator adds no non-whitespace character |
| `OcrText.CleanText` | services/ocr_service.py:30-39 | the cleaned text contains no line feed and has no leading or trailing whitespace |
| `OcrText.CleanTextKeepsNonWs` | services/ocr_service.py:32-37 | the cleaned text has exactly the non-whitespace characters of the input, in their original order |
| `OcrText.CleanTextEmptyIffBlank` | services/ocr_service.py:32-37 | the result is `""` exactly when the input is empty or made only of blank or whitespace-only lines |
| `OcrText.CleanTextOfTidyLines` | services/ocr_service.py:32-37 | non-empty stripped lines written one per line are cleaned into exactly those lines separated by single spaces: whitespace inside a line is kept and each line break becomes one space |
| `OcrText.CleanTextIdempotent` | services/ocr_service.py:36-37 | cleaning an already cleaned text returns it unchanged |
| `OcrText.ExtractText` | services/ocr_service.py:13-28 | never raises: an OCR failure gives `""`; otherwise the result keeps the OCR output's non-whitespace characters in order, has no line feed and no outer whitespace |
| `Ranking.ArgsortDescending` | services/search_service.py:111 | `argsort(scores)[::-1]` lists every index exactly once, by non-increasing score |
| `Ranking.TopIndices` | services/search_service.py:111 | `argsort(scores)[::-1][:top_k]` has the Python slice length (`min(top_k, n)` for `top_k >= 0`), distinct in-range indices, non-increasing scores, and no index left out scores higher than any selected one |
| `Ranking.TopSelectionScoresAgree` | services/search_service.py:140 | two valid top-k selections of the same scores have equal scores position by position: only the order among ties is unspecified |
| `Ranking.TopSelectionUniqueWithoutTies` | services/search_service.py:111 | when no two scores are equal the top-k selection is unique |
| `Ranking.FullSelectionCoversAll` | services/search_service.py:111 | when `top_k` is at least the number of scores, every index is selected |
| `SearchStore.FirstRow` | services/search_service.py:63 | `encode_text(text)[0]` succeeds exactly when encoding succeeded with at least one row, and then is the first row; `encode_query` takes the same first row |
| `SearchStore.Embeddings` | services/search_service.py:107 | one embedding per document, each the document's own, in document order (likewise line 136) |
| `SearchStore.ToHit` | services/search_service.py:115-118 | the hit carries the given score and every copied field of the document (likewise lines 144-147) |
| `SearchStore.ToHitForgetsEmbedding` | services/search_service.py:115-118 | two hits are equal exactly when their scores are equal and their documents differ at most in the embedding, which the copy drops |
| `SearchStore.CollectHits` | services/search_service.py:113-119 | the loop succeeds exactly when every selected index names a document, and then yields, in selection order, each document without its embedding and with its own score |
| `SearchStore.RankDocuments` | services/search_service.py:101-121 | no documents give `[]`; otherwise the hits are a valid top-k ranking of the documents by their similarity to the query, or `[]` when a selected index raised |
| `SearchStore.SearchService.constructor` | services/search_service.py:8-39 | local mode with an empty list exactly when the URI is unset or empty or connecting raised; otherwise MongoDB mode over the collection's existing documents |
| `SearchStore.SearchService.StoreScreenshot` | services/search_service.py:58-84 | a successful store appends exactly one document (the given fields and the first embedding row of `combined_text`) to the active store and changes nothing else; a failed embedding or insert changes nothing |
| `SearchStore.SearchService.Search` | services/search_service.py:86-99 | `[]` when the query cannot be embedded, the MongoDB read raised or the store is empty; otherwise a top-k ranking of the stored documents by similarity to the query embedding; the store itself is not modified |
| `SearchStore.SearchService.GetTotalScreenshots` | services/search_service.py:156-164 | the number of documents in the active store; 0 when MongoDB counting raised |
| `SearchStore.HitsAreTopK` | services/search_service.py:111-121 | with one score per document the hits are `min(top_k, n)` distinct documents, by non-increasing score, each with its own score and fields, and no left-out document scores higher than the last hit |
| `SearchStore.NoScoresNoHits` | services/search_service.py:108-111 | an empty score array from the similarity step gives `[]` |
| `SearchStore.ScoreBeyondDocsGivesNoHits` | services/search_service.py:114-115 | a selected index past the documents raises and the search gives `[]` |
| `SearchStore.LargeKReturnsAll` | services/search_service.py:111 | when `top_k` is at least the number of documents, every document is returned exactly once |

## Left out

- Logging: every `print` call is omitted.
- Embedding model loading, `encode_text`, `calculate_similarity` and `get_embedding_dimension` (services/embedding_service.py): foreign model calls and floating-point numpy work; the first two are abstract functions of the service, scores are `real`s, and NaN ordering in `argsort` is not modelled.
- MongoDB I/O: `MongoClient`, `list_indexes` and `create_index` in `_ensure_vector_index`, `insert_one`, `find` and `count_documents` are reduced to the `collection` sequence and `remoteFault` flags. `_ensure_vector_index` is not modelled: it swallows its own exceptions, so its outcome cannot change the mode. The `_id` that `insert_one` adds is projected away by `find` and is not modelled.
- `SearchStore.SearchService.StoreScreenshot`: an `insert_one` that raises is taken to have stored nothing.
- Ragged embedding arrays (`np.array` over embeddings of different lengths raises inside `search`, which returns `[]`) fold into the abstract `Scorer`; the observable result, `[]`, is the same as a failed similarity step.
- `OcrText.CleanText`: takes a `string`; Python's `_clean_text(None)` (also falsy, giving `""`) is not modelled, since OCR output is always a string.
- PIL mode conversion and the tesseract call in `extract_text`: library calls; their outcome is the `Option<string>` parameter of `ExtractText`.
- app.py (Streamlit UI, the space-joined `combined_text`, the per-file loop) and services/vision_service.py (an HTTP client): presentation and network glue. `combined_text` is a parameter of `StoreScreenshot`.
- Concurrency: the code has no threads or locks.
