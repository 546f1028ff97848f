# RAGLite backend core, modelled in Dafny

This project models the decision logic of the RAGLite backend. That backend is a Django service that indexes uploaded PDFs into a vector store and answers questions from them with a local language model.

The model covers five pieces:

- **Chunking** (`chunker.dfy`, module `Chunker`):
  - the sliding-window split of a document's page texts into aligned `(chunk, metadata, id)` lists;
  - the one-chunk-per-page variant;
  - the page concatenation of the text extraction.
- **Vector-store façade** (`vector_store.dfy`, `VectorStore`):
  - the `documents` and `cached_queries` collections as maps from entry id to stored text and metadata;
  - nearest-neighbour ranking as an oracle that returns a ranked list of `(id, distance)`;
  - the logic around that oracle: the metadata filter, the top-k cut, the strict similarity threshold, the 500-character answer preview, and id-based delete and exists.
- **Generator front end** (`generator.dfy`, `Generator`):
  - first-match lookup in the model-to-URL table;
  - the fixed prompt template;
  - the request that would be posted;
  - how the exchange's outcome becomes the returned string, including the `"Model not found"`, `"OLF"` and `"OLU"` sentinels.
- **Records and validators** (`records.dfy`, `validation.dfy`):
  - the `Document` and `Chat` rows with the status choices;
  - tables held newest first, with a unique file hash and unique primary keys;
  - the upload and query validators.
- **Views** (`upload.dfy`, `resolver.dfy`, with the shared `AppState` in `store.dfy`):
  - both views are pure functions from a store and their oracle inputs to `(response, new store)`;
  - the upload runs: duplicate check, create as `processing`, extract, chunk, index, then `completed` or `failed`;
  - the query runs: validation, exact case-insensitive match, similarity cache, retrieval, generation, then persisting the chat and the cached question.

What the environment would decide is an explicit parameter:

- the page texts of a stored PDF (or the reader's error);
- the content digest;
- fresh uuids;
- creation times;
- the two rankings;
- the generator's transport outcome;
- which step inside a view's `try` block raises, if any.

`common.dfy` holds the Python string operations the code relies on: `strip` with Python's whitespace set, `endswith`, slicing, `join`, and ASCII case folding for `iexact`.

## Model

| member | source | states |
|---|---|---|
| Common.StripEmptyIffBlank | backend/ragliteapp/utils.py:102 | `text.strip()` is empty exactly when the text is empty or made only of characters Python treats as whitespace |
| Common.EqualsIgnoringCaseIffLowerEqual | backend/ragliteapp/views.py:149 | the `iexact` comparison holds exactly when both strings are equal after ASCII lower-casing |
| Common.Take | backend/ragliteapp/vectordb_services.py:146 | `answer[:500]` is a prefix of the answer of length min(500, len(answer)), and is the whole answer when that is shorter |
| Common.JoinPartAt | backend/ragliteapp/views.py:197 | every part of a `join` appears verbatim at its offset (earlier parts plus one separator each), and the last part ends the string |
| Common.JoinSeparatorAfter | backend/ragliteapp/views.py:197 | exactly one separator follows every part except the last |
| Chunker.SlideAt | backend/ragliteapp/utils.py:104-119 | window k of the `while start < len(text)` loop starts at k·step, is `text[start:start+chunk_size]` clipped at the end, and carries chunk index k |
| Chunker.SlideCount | backend/ragliteapp/utils.py:104-119 | entered at `start < L`, the loop emits ceil((L − start)/step) windows; at or past the end it emits none |
| Chunker.PageChunkCount | backend/ragliteapp/utils.py:101-106 | an empty or whitespace-only page yields no chunk; any other page of length L yields ceil(L/step) chunks |
| Chunker.PageChunkAt | backend/ragliteapp/utils.py:104-119 | chunk k of a page comes from a non-skipped page, is `text[k·step : k·step+chunk_size]` clipped at the page end, is 1 to chunk_size characters long, and carries the page number and chunk_index k |
| Chunker.PageCoverage | backend/ragliteapp/utils.py:104-119 | with 0 ≤ overlap < chunk_size, every character of a non-skipped page lies inside some chunk: no gaps |
| Chunker.SizePiecesCount | backend/ragliteapp/utils.py:100-120 | the number of by-size chunks is the sum over non-skipped pages of ceil(len/step) |
| Chunker.SizePiecesSound | backend/ragliteapp/utils.py:100-116 | every by-size chunk is the window its metadata's page and chunk_index name, on a non-skipped page, with the given document id and source |
| Chunker.SizePiecesComplete | backend/ragliteapp/utils.py:100-119 | every window index 0 … ceil(len/step)−1 of every non-skipped page is emitted |
| Chunker.SizePiecesOrdered | backend/ragliteapp/utils.py:100-119 | by-size chunks come out strictly ordered by page number and, within a page, by chunk index |
| Chunker.ChunkBySizeOrdered | backend/ragliteapp/utils.py:83-120 | for the whole document, the metadata list is strictly ordered by (page, chunk_index) |
| Chunker.ChunkBySize | backend/ragliteapp/utils.py:107-117 | the chunks, metadatas and ids lists have equal length, and id i is the i-th fresh uuid |
| Chunker.ChunkBySizeSpec | backend/ragliteapp/utils.py:83-120 | for the whole document: lists aligned, count = sum of per-page ceilings, each chunk the named window of a 1-based non-skipped page with the given document id |
| Chunker.RechunkSameContent | backend/ragliteapp/utils.py:117 | ids do not depend on content: another uuid supply yields the same chunks and metadata |
| Chunker.ChunkByPage | backend/ragliteapp/utils.py:67-80 | the by-page lists are aligned, and id i is the i-th fresh uuid |
| Chunker.PagePiecesSound | backend/ragliteapp/utils.py:67-78 | each by-page chunk is the unchanged text of the non-skipped page its metadata names |
| Chunker.PagePiecesOrdered | backend/ragliteapp/utils.py:67-78 | by-page chunks come out in strictly increasing page order |
| Chunker.PagePiecesComplete | backend/ragliteapp/utils.py:67-78 | every non-skipped page contributes its chunk with its own page number |
| Chunker.ChunkByPageSound | backend/ragliteapp/utils.py:67-78 | for the whole document: each chunk is the unchanged text of non-skipped page `page − 1`, with page-type metadata, and pages strictly increase |
| Chunker.ChunkByPageComplete | backend/ragliteapp/utils.py:67-78 | every non-skipped page i has a chunk with its text and page i + 1; with the ordering, exactly one per such page |
| Chunker.ExtractText | backend/ragliteapp/utils.py:44-49 | the full text is each non-empty page followed by "\n", in order; the page count includes pages without text; the text is empty exactly when every page is |
| Records.ParseStatus | backend/ragliteapp/models.py:10-16 | a stored value reads back only as the status whose stored name it is |
| Records.StatusRoundTrip | backend/ragliteapp/models.py:10-16 | each of the four choices reads back as itself, and their stored names are distinct |
| Records.FirstWithHash | backend/ragliteapp/views.py:54 | `filter(file_hash=h).first()` finds nothing exactly when no row has the hash; otherwise it finds the first row that does |
| Records.FirstExactMatch | backend/ragliteapp/views.py:149 | `filter(question__iexact=q).first()` finds nothing exactly when no chat matches; otherwise it finds the first match |
| Records.ExactMatchIsNewest | backend/ragliteapp/models.py:53 | with the newest-first ordering, the exact match returned is at least as recent as any other match |
| Records.ChatById | backend/ragliteapp/views.py:166 | `Chat.objects.get(id=…)` finds nothing exactly when no chat has that id; otherwise it finds a stored chat with that id |
| Records.ChatByIdUnique | backend/ragliteapp/models.py:34 | with unique primary keys, `get` returns the one chat holding the id |
| Records.InsertNewestContents | backend/ragliteapp/models.py:23-27 | a create adds the new row exactly once (the new table's multiset is the old one plus the row) and nothing else; it goes first when no row is newer |
| Records.InsertNewestKeepsOrder | backend/ragliteapp/models.py:27 | inserting a created row keeps the table ordered newest first by created_at |
| Records.InsertDocumentKeepsValid | backend/ragliteapp/models.py:6-27 | creating a document with a new id and a new hash of at most 32 characters keeps both unique and the order newest first |
| Records.InsertChatKeepsValid | backend/ragliteapp/models.py:33-53 | creating a chat with a new id keeps ids unique and the order newest first |
| Validation.ValidateFile | backend/ragliteapp/serializers.py:21-24 | an upload is accepted exactly when its name ends in ".pdf" or ".txt"; otherwise the error is "File must be a PDF or TXT" |
| Validation.NoUploadSizeLimit | backend/ragliteapp/serializers.py:24-28 | the verdict never depends on the size: a file beyond 15 MB with an accepted name is accepted |
| Validation.ValidateQueryField | backend/ragliteapp/serializers.py:40-43 | `validate_query` rejects exactly the empty and whitespace-only values |
| Validation.ValidateQueryRequest | backend/ragliteapp/serializers.py:29-39 | a rejection carries at least one error; an accepted request keeps its document id and model |
| Validation.QueryRequestAccepted | backend/ragliteapp/serializers.py:31-39 | accepted exactly when the fields are within 1000/1000/50 characters, a given query is not blank, and query or question is non-empty; the text is the query when given, else the question |
| Validation.ValidationIgnoresDocumentId | backend/ragliteapp/serializers.py:33-43 | the serializer's own checks never look at `document_id`: changing it changes neither the verdict nor any other validated field |
| Validation.BlankQuestionAccepted | backend/ragliteapp/serializers.py:36-43 | the serializer's own checks accept a whitespace-only `question` and reject the same value as `query` as empty |
| VectorStore.InsertNewKeys | backend/ragliteapp/vectordb_services.py:61-65 | after `add`, the collection's ids are exactly the old ids and the batch's ids |
| VectorStore.InsertNewStores | backend/ragliteapp/vectordb_services.py:61-65 | the first occurrence of an id new to the collection stores its chunk and metadata |
| VectorStore.AddDocumentChunks | backend/ragliteapp/vectordb_services.py:60-66 | reports the number of chunks given; writes only the documents collection; keeps existing entries; stores each new id's chunk and metadata |
| VectorStore.WhereDocument | backend/ragliteapp/vectordb_services.py:87 | the `document_id` filter is built exactly when the id is truthy, and holds the id in the string form every chunk stores |
| VectorStore.SearchWhere | backend/ragliteapp/vectordb_services.py:88-92 | `collection.query(n_results=k, where=…)` returns at most k stored chunks, each with its stored text and metadata, each passing the clause |
| VectorStore.SearchDocumentChunks | backend/ragliteapp/vectordb_services.py:86-93 | at most k results, each a stored chunk with its stored text and metadata, and of the queried document when one is given |
| VectorStore.MatchingSorted | backend/ragliteapp/vectordb_services.py:88-92 | filtering a ranking keeps it ordered by distance |
| VectorStore.MatchingComplete | backend/ragliteapp/vectordb_services.py:88-92 | every ranked entry that passes the filter is kept |
| VectorStore.SearchEmptyIff | backend/ragliteapp/vectordb_services.py:86-93 | for k > 0 the search is empty exactly when no stored chunk is in scope |
| VectorStore.SearchNearest | backend/ragliteapp/vectordb_services.py:86-93 | results come nearest first, and an in-scope chunk strictly nearer than a returned one is itself returned |
| VectorStore.SearchReturnsTopK | backend/ragliteapp/vectordb_services.py:86-93 | the search never returns the same chunk twice, and it returns k chunks or, when fewer are in scope, every in-scope chunk: min(k, in-scope count) results |
| VectorStore.ScopedSearchFindsDocument | backend/ragliteapp/vectordb_services.py:86-93 | with the id in string form, a search scoped to a document that has a stored chunk finds chunks, and only chunks of that document |
| VectorStore.WhereDocumentAsWritten | backend/ragliteapp/views.py:145-186 | the filter the query view builds holds the serializer's `uuid.UUID` exactly when the id is truthy |
| VectorStore.ScopedSearchFindsNothingAsWritten | backend/ragliteapp/views.py:181-192 | with that filter, every search scoped to a document comes back empty, whatever is stored; an unscoped search is unaffected |
| VectorStore.DeleteDocumentChunks | backend/ragliteapp/vectordb_services.py:106-111 | reports 1 exactly when an entry has the given id, and removes only that entry; otherwise reports 0; cached questions are untouched |
| VectorStore.CheckDocumentExists | backend/ragliteapp/vectordb_services.py:114-126 | reports true exactly when a delete of the same id would remove an entry |
| VectorStore.DeleteAgreesWithExists | backend/ragliteapp/vectordb_services.py:106-126 | delete reports a removal exactly when `check_document_exists` is true, and afterwards it is false |
| VectorStore.ChunksInvisibleToDocumentId | backend/ragliteapp/vectordb_services.py:106-126 | a document whose chunks are stored under other ids does not "exist", and deleting it removes nothing, though its chunks are stored |
| VectorStore.AddCachedQuestion | backend/ragliteapp/vectordb_services.py:143-148 | stores the question under id = chat id, with that chat id and the answer's first 500 characters, when the id is new (an existing id keeps its entry); only cached_queries changes |
| VectorStore.FindSimilarQuestion | backend/ragliteapp/vectordb_services.py:166-178 | no ranked entry: None; otherwise the nearest entry, only when its distance is strictly below the threshold |
| VectorStore.SimilarHitIff | backend/ragliteapp/vectordb_services.py:154-178 | over a well-formed ranking there is a hit exactly when some cached question is strictly closer than the threshold; a hit is stored and nearest; a distance equal to the threshold misses |
| Generator.FirstEndpoint | backend/ragliteapp/llm_services.py:36-41 | the position of the first table entry for the model; none exactly when no entry serves it |
| Generator.ResolveEndpoint | backend/ragliteapp/llm_services.py:36-42 | the URL of the first entry whose model matches; none exactly when no entry does |
| Generator.FirstEntryShadows | backend/ragliteapp/llm_services.py:37-40 | a later entry for the same model is never used |
| Generator.BuildPrompt | backend/ragliteapp/llm_services.py:75-95 | the prompt for a query and context; its layout is stated by Generator.PromptLayout; Generator.PromptDeterminesInputs states that it is injective for contexts of equal length |
| Generator.PromptLayout | backend/ragliteapp/llm_services.py:86-95 | the prompt is the fixed head, the context verbatim, the question marker, the query verbatim, and the fixed instructions |
| Generator.PromptCarriesFallbackInstruction | backend/ragliteapp/llm_services.py:91 | every prompt carries the "I don't have enough information…" sentence at a fixed distance from its end |
| Generator.PromptDeterminesInputs | backend/ragliteapp/llm_services.py:86-95 | for contexts of equal length, two prompts are equal exactly when contexts and queries are |
| Generator.GenerateAnswer | backend/ragliteapp/llm_services.py:33-73 | no URL: "Model not found" and nothing sent; otherwise a POST to that URL with model, prompt, stream false, temperature and a 3600 s timeout; a reply's "response" value or "" if absent; "OLF" on a request exception; "OLU" on any other |
| Generator.TimeoutReportedAsRequestFailure | backend/ragliteapp/llm_services.py:65-70 | a timed-out request yields "OLF"; "OLT" comes back only when the model itself replied "OLT" |
| Generator.EmptyAnswerIff | backend/ragliteapp/llm_services.py:42-73 | the answer is empty exactly when a request was sent and the reply's "response" was absent or empty |
| Generator.MissingModelSendsNothing | backend/ragliteapp/llm_services.py:42-44 | with the model absent from the table, the outcome is "Model not found" whatever the transport |
| Upload.UploadDocument | backend/ragliteapp/views.py:42-115 | an upload never touches chats or cached questions; a rejected, duplicate or failed-create upload changes nothing |
| Upload.Process | backend/ragliteapp/views.py:67-115 | the `try` body ends processed exactly when the file reads, the index accepts the chunks and the completing save succeeds: the row is `completed` with the reader's page count and the document's by-size chunk count, and the response reports the extracted characters. A read or index failure leaves the row `failed` and the index unchanged. A failure of the completing save, which comes after the add, leaves the row `failed` with both counts and the chunks indexed. Cached questions are never touched |
| Upload.DuplicateIsNoOp | backend/ragliteapp/views.py:53-57 | if any document has the hash, whatever its status, the answer is "already exists" and nothing is created, chunked or indexed |
| Upload.ReuploadIsDuplicate | backend/ragliteapp/views.py:53-65 | after an upload that created a row, even a failed one, the same bytes under any name are a duplicate |
| Upload.UploadSuccess | backend/ragliteapp/views.py:67-103 | a readable file the index accepts ends `completed` with the reader's page count and the by-size chunk count; the response reports pages, chunks and characters; the chunks are indexed |
| Upload.UploadFailure | backend/ragliteapp/views.py:72-115 | a read or index failure leaves the row `failed` with no counts, answers 500 with the error text, and indexes nothing |
| Upload.UploadSaveFailure | backend/ragliteapp/views.py:82-115 | a failure of the save that records `completed` leaves the row `failed` but with its page and chunk counts, answers 500 with the error text, and leaves the chunks indexed exactly as a successful upload indexes them |
| Upload.UploadSettlesStatus | backend/ragliteapp/views.py:60-115 | a created row always ends `completed` or `failed`, and a row is added exactly when one is created |
| Upload.UploadKeepsValid | backend/ragliteapp/views.py:60-65 | an upload keeps ids and hashes unique, hashes within 32 characters, and every chat's links to stored documents |
| Resolver.ContextHoldsEveryChunk | backend/ragliteapp/views.py:194-197 | each retrieved text sits verbatim in the context in rank order, separated by "\n\n---\n\n" |
| Resolver.BuildContext | backend/ragliteapp/views.py:197 | no retrieved chunk gives an empty context and one gives its text alone; Resolver.ContextHoldsEveryChunk states the general layout |
| Resolver.SimilarChat | backend/ragliteapp/views.py:159-176 | a similarity hit is used exactly when `find_similar_question` hits and its chat still exists; it returns that chat and the distance |
| Resolver.Linked | backend/ragliteapp/views.py:224-230 | a new chat is linked to the queried document exactly when one is given and exists |
| Resolver.Persist | backend/ragliteapp/views.py:215-234 | persisting never touches documents or chunks and ends 201 or 500; a failure that still wrote came from the cache insert, or from the link step of a query that names a document, and left the index unchanged |
| Resolver.PersistLateFault | backend/ragliteapp/views.py:215-234 | a failing cache insert keeps the chat with its link; a failing link keeps the chat without any link and skips the cache insert; with no document queried the link step does not run, so its fault changes nothing |
| Resolver.Answer | backend/ragliteapp/views.py:181-249 | the `try` body never touches documents or chunks, and writes nothing unless it answers 201 or 500 |
| Resolver.Query | backend/ragliteapp/views.py:137-249 | a query never touches documents or chunks, and only the 201 and 500 answers can write; a failing similarity lookup leaves the view unhandled |
| Resolver.InvalidRequestRejected | backend/ragliteapp/views.py:139-142 | an invalid request answers 400 with the validation errors and changes nothing |
| Resolver.ExactMatchWins | backend/ragliteapp/views.py:148-157 | an exact case-insensitive match answers 200 "cache match" with the newest matching chat, before any cache or generator, whatever they would say |
| Resolver.SimilarHitAnswers | backend/ragliteapp/views.py:159-174 | with no exact match, a cached question nearer than 0.15 whose chat exists answers 200 "cache similar" with similarity 1 − distance, writing nothing |
| Resolver.DanglingSimilarFallsThrough | backend/ragliteapp/views.py:175-176 | a hit whose chat is gone makes the query go on exactly as with an empty cache |
| Resolver.SimilarityFaultEscapes | backend/ragliteapp/views.py:159-249 | a similarity lookup that raises, outside the `try`, leaves the view unhandled with nothing written, whereas a failing search inside it is answered 500 by the `except` |
| Resolver.SimilarityIgnoresDocumentScope | backend/ragliteapp/views.py:161 | a similarity answer is the same whatever document the query is scoped to |
| Resolver.NoDocumentsFound | backend/ragliteapp/views.py:183-192 | with no stored chunk in scope the answer is 404, nothing is written, and the generator is not consulted |
| Resolver.EmptyAnswerAborts | backend/ragliteapp/views.py:200-211 | the query aborts with 500 exactly when the generated answer is empty, and then writes nothing |
| Resolver.AnswerGenerated | backend/ragliteapp/views.py:181-243 | a 201 from the `try` body means no step that ran raised, non-empty results and answer, a fresh chat id, one inserted chat and the cached question |
| Resolver.GeneratedWritesOnce | backend/ragliteapp/views.py:215-243 | a 201 writes exactly one chat (query, answer, used chunks, no score, model defaulting to "llama3.2", link only to an existing queried document) and the cached question under its id, and reports chunks_used = number of chunks (1 to 3) |
| Resolver.LateFaultKeepsChat | backend/ragliteapp/views.py:231-249 | when the cache insert raises, the answer is 500 but the chat stays; the cache is not written |
| Resolver.LinkFaultKeepsUnlinkedChat | backend/ragliteapp/views.py:215-249 | when the query names a document and the link step raises with an error other than `DoesNotExist`, the answer is 500 and exactly one new chat stays, unlinked; the cache is not written |
| Resolver.SentinelIsCachedAndReplayed | backend/ragliteapp/views.py:207 | only an empty answer aborts, so "Model not found" is saved and returned as a cache match when the same question is asked again |
| Resolver.PersistKeepsValid | backend/ragliteapp/views.py:215-234 | persisting keeps the tables valid, chat links pointing at stored documents, and each cached question keyed by its chat id |
| Resolver.AnswerKeepsValid | backend/ragliteapp/views.py:181-249 | the `try` body keeps the store valid |
| Resolver.QueryKeepsValid | backend/ragliteapp/views.py:137-249 | every query keeps the store valid |

## Left out

- PDF parsing with PyPDF2: a stored file is the list of its page texts, or the reader's error.
  - A `.txt` upload passes validation and then reaches the reader; the model covers it as an unreadable file.
- MD5 in `calculate_hash`: the digest is a function parameter.
- Uuid generation: chunk ids are the i-th values of a uuid supply; document and chat ids are parameters.
- Chroma's embedding and nearest-neighbour search: an oracle ranking by distance.
  - Ties are ordered by the oracle.
  - Distances are `real`, with no floating-point behaviour.
- Chroma errors on `add`, such as an empty batch or a duplicate id within a batch, are not decided by the model. The upload takes the error of the index, or of the save that records `completed`, as an input.
  - Re-adding an id the collection already holds keeps the stored entry.
- The HTTP POST and its transport: an oracle from the request to the outcome.
  - The 3600 s timeout is only recorded in the request.
  - `health_check` is not modelled.
- A "response" value that is not a string is not modelled: the reply carries an optional string.
- A table entry without a `model` or `url` key, which would raise `KeyError` inside the `try`: entries always carry both.
- `get_collection_stats`, the collection-creation metadata, the singleton getters and logging carry no logic that the views depend on.
- The `testinput` endpoint, `urls.py` routing and the React frontend: outside the core.
- The framework's own field handling, none of which is modelled:
  - trimming of `CharField` values;
  - rejection of blank strings before `validate_query` runs;
  - `UUIDField` parsing of `document_id`;
  - `FileField`'s rejection of an empty upload (`allow_empty_file=False`) before `validate_file` runs.
  - As a result, the model accepts a whitespace-only `question` that the framework rejects as blank, and an empty `.pdf` or `.txt` file that the framework rejects as empty. Its search compares `document_id` in string form (see Findings).
- `Chat.objects.get` with an id that is not a valid UUID is not modelled: cached-question ids are always chat ids.
- Chat.model `max_length=20` is not enforced. The serializer allows 50 characters, and SQLite does not check the column length.
- Document.name `max_length`, `updated_at`, and the serializers' rendering of rows.
- A failure of `document.save()` inside the upload's `except` branch: the failed row is always saved.
- Concurrent uploads or queries: races are left to the database.
- Chunker.ChunkBySize: requires `0 < chunk_size` and `overlap < chunk_size`. With a non-positive step the source's loop never ends, and the upload always uses 1000 and 200.
- Chunker.PageCoverage: also requires `0 <= overlap`. A negative overlap leaves gaps between windows.
- VectorStore.SearchNearest: states that a strictly nearer in-scope chunk is never skipped. It does not state which of several equally distant chunks fill the last places, since that order is the oracle's.
- Validation.ValidateFile: states the serializer's own `validate_file` only. The framework's `FileField` rejects an empty file before that check runs, so an empty file with an accepted name still gets a 400.
- Validation.BlankQuestionAccepted: holds of the serializer's own checks only. The framework's `CharField` defaults trim a value and reject a blank one before those checks run, so the full serializer answers 400 for a whitespace-only `question`.
- Validation.ValidationIgnoresDocumentId: holds of the serializer's own checks only. The framework's `UUIDField` still rejects a `document_id` that is not a UUID, which the model does not decide.
- Resolver.Linked: as the program is written, a scoped query never reaches the link step, because its search finds nothing (see Findings). The model follows the string comparison, under which the link is made.
- Upload.UploadKeepsValid: assumes the digest is 32 characters long, as an MD5 hex digest is. The column's `max_length=32` is not enforced by SQLite.

## Findings

| source | as written | input that shows it | evidently intended | confidence | as-written member | corrected member |
|---|---|---|---|---|---|---|
| backend/ragliteapp/views.py:145-186 | the query view passes the `uuid.UUID` from the serializer's `UUIDField` as the `document_id` filter value, while every chunk stores `str(document.id)` (views.py:77) | a query whose `document_id` is the id of a completed document that has chunks | compare the id's string form, so that a scoped search finds that document's chunks | medium, not executed; the store may instead reject a filter value that is not a string, which the view's `except` turns into a 500; either way no chunk is retrieved | VectorStore.ScopedSearchFindsNothingAsWritten | VectorStore.ScopedSearchFindsDocument |
