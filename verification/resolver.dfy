/** Model of `ChatViewSet.query` (`views.py`): validate the request, answer
    from the chat table on a case-insensitive exact match, else from the
    similarity cache, else retrieve chunks, generate, and persist.

    The environment is explicit: `cacheOrder` and `docOrder` are the
    nearest-neighbour rankings of the cached_queries and documents
    collections for the query text, `send` is the generator's transport,
    `chatId` the uuid a new chat receives, `now` its creation time, and
    `fault` the step that raises, if one does. */
module Resolver {
  import opened Common
  import opened Chunker
  import opened Records
  import opened Validation
  import opened VectorStore
  import opened Generator
  import opened AppState

  const ContextSeparator := "\n\n---\n\n"
  const RetrievalCount: nat := 3

  /** The steps that can raise: the similarity lookup, which runs before
      the `try` so that its exception leaves the view; and, inside the `try`,
      the vector search, the chat insert, the document lookup and link
      (with an error other than `DoesNotExist`; it runs only for a truthy
      `document_id`), and the cache insert. A fault names a step that raises
      when it runs; a step that does not run raises nothing. */
  datatype Fault = NoFault | SimilarityFails | SearchFails | ChatCreateFails | LinkFails | CacheAddFails

  datatype QueryResponse =
    | Invalid(errors: seq<QueryError>)                                          // 400
    | CacheMatch(answer: string, chatId: string, sourceChunks: Option<seq<ChunkMeta>>)  // 200
    | CacheSimilar(answer: string, chatId: string, sourceChunks: Option<seq<ChunkMeta>>,
                   similarityScore: real)                                       // 200
    | NoDocuments                                                               // 404
    | GenerationFailed                                                          // 500
    | Generated(answer: string, chatId: string, usedChunks: seq<ChunkMeta>, chunksUsed: nat)  // 201
    | QueryFailed                                                               // 500
    | Unhandled                                         // 500, raised out of the view

  function StatusCode(r: QueryResponse): int
  {
    match r
    case Invalid(_) => 400
    case CacheMatch(_, _, _) => 200
    case CacheSimilar(_, _, _, _) => 200
    case NoDocuments => 404
    case GenerationFailed => 500
    case Generated(_, _, _, _) => 201
    case QueryFailed => 500
    case Unhandled => 500
  }

  function Texts(rs: seq<Retrieved>): (r: seq<string>)
    ensures |r| == |rs| && forall i :: 0 <= i < |rs| ==> r[i] == rs[i].text
  {
    seq(|rs|, i requires 0 <= i < |rs| => rs[i].text)
  }

  function Metas(rs: seq<Retrieved>): (r: seq<ChunkMeta>)
    ensures |r| == |rs| && forall i :: 0 <= i < |rs| ==> r[i] == rs[i].meta
  {
    seq(|rs|, i requires 0 <= i < |rs| => rs[i].meta)
  }

  /** The context handed to the generator: the retrieved texts in rank
      order, separated by a horizontal rule. */
  function BuildContext(rs: seq<Retrieved>): (r: string)
    ensures rs == [] ==> r == []
    ensures |rs| == 1 ==> r == rs[0].text
  {
    Join(Texts(rs), ContextSeparator)
  }

  /** Every retrieved text appears verbatim in the context, at its rank's
      offset, and a separator follows each text but the last. */
  lemma ContextHoldsEveryChunk(rs: seq<Retrieved>, i: nat)
    requires i < |rs|
    ensures var c := BuildContext(rs);
            var o := JoinOffset(Texts(rs), ContextSeparator, i);
            var e := o + |rs[i].text|;
            && e <= |c|
            && c[o..e] == rs[i].text
            && (i + 1 < |rs| ==> e + |ContextSeparator| <= |c| && c[e..e + |ContextSeparator|] == ContextSeparator)
            && (i + 1 == |rs| ==> e == |c|)
  {
    JoinPartAt(Texts(rs), ContextSeparator, i);
    if i + 1 < |rs| {
      JoinSeparatorAfter(Texts(rs), ContextSeparator, i);
    }
  }

  /** `model if model else 'llama3.2'`. */
  function ModelOrDefault(model: Option<string>): (r: string)
    ensures Truthy(model) ==> r == model.value
    ensures !Truthy(model) ==> r == DefaultModel
  {
    if Truthy(model) then model.value else DefaultModel
  }

  /** Step 3: the nearest cached question under the threshold, and the chat
      its id names, when that chat still exists. */
  function SimilarChat(chats: seq<Chat>, cacheOrder: seq<Scored>): (r: Option<(Chat, real)>)
    ensures r.Some? <==> FindSimilarQuestion(cacheOrder, DefaultThreshold).Some?
                         && ChatById(chats, FindSimilarQuestion(cacheOrder, DefaultThreshold).value.id).Some?
    ensures r.Some? ==> r.value.0 == ChatById(chats, FindSimilarQuestion(cacheOrder, DefaultThreshold).value.id).value
                        && r.value.1 == FindSimilarQuestion(cacheOrder, DefaultThreshold).value.distance
  {
    match FindSimilarQuestion(cacheOrder, DefaultThreshold)
    case None => None
    case Some(hit) =>
      match ChatById(chats, hit.id)
      case None => None
      case Some(c) => Some((c, hit.distance))
  }

  /** The documents a new chat is linked to: the queried one, when the query
      names a document that exists. */
  function Linked(docs: seq<Document>, documentId: Option<string>): (r: set<string>)
    ensures r != {} <==> Truthy(documentId) && HasDocument(docs, documentId.value)
    ensures r != {} ==> r == {documentId.value}
  {
    if Truthy(documentId) && HasDocument(docs, documentId.value) then {documentId.value} else {}
  }

  /** The row `Chat.objects.create` inserts for a generated answer. */
  function NewChat(docs: seq<Document>, q: string, documentId: Option<string>, model: Option<string>,
                   results: seq<Retrieved>, answer: string, chatId: string, now: int): Chat
  {
    Chat(chatId, q, answer, Linked(docs, documentId), Some(Metas(results)), None, Some(ModelOrDefault(model)), now)
  }

  /** Steps 6 to 8, once a non-empty answer is in hand: insert the chat,
      link the document, cache the question. The chat is created unlinked
      and linked afterwards, so a failing link leaves it unlinked. */
  function Persist(s: Store, q: string, documentId: Option<string>, model: Option<string>,
                   results: seq<Retrieved>, answer: string, chatId: string, now: int, fault: Fault)
    : (r: (QueryResponse, Store))
    ensures r.1.documents == s.documents && r.1.index.documents == s.index.documents
    ensures r.0.Generated? || r.0 == QueryFailed
    ensures r.0 == QueryFailed && r.1 != s ==>
              && (fault == CacheAddFails || (fault == LinkFails && Truthy(documentId)))
              && r.1.index == s.index
  {
    if fault == ChatCreateFails || ChatById(s.chats, chatId).Some? then (QueryFailed, s)
    else
      var chat := NewChat(s.documents, q, documentId, model, results, answer, chatId, now);
      if fault == LinkFails && Truthy(documentId) then
        (QueryFailed, s.(chats := InsertNewest(chat.(documents := {}), s.chats, ChatStamp)))
      else
      var s1 := s.(chats := InsertNewest(chat, s.chats, ChatStamp));
      if fault == CacheAddFails then (QueryFailed, s1)
      else
        (Generated(answer, chatId, Metas(results), |results|),
         s1.(index := AddCachedQuestion(s1.index, q, chatId, answer)))
  }

  /** Steps 4 to 8, the body of the `try`. */
  function Answer(s: Store, q: string, documentId: Option<string>, model: Option<string>,
                  urls: seq<Endpoint>, docOrder: seq<Scored>, send: GenerateRequest -> Transport,
                  chatId: string, now: int, fault: Fault): (r: (QueryResponse, Store))
    ensures r.1.documents == s.documents && r.1.index.documents == s.index.documents
    ensures !(r.0.Generated? || r.0.QueryFailed?) ==> r.1 == s
  {
    if fault == SearchFails then (QueryFailed, s)
    else
      var results := SearchDocumentChunks(s.index, docOrder, RetrievalCount, documentId);
      if results == [] then (NoDocuments, s)
      else
        var g := GenerateAnswer(urls, q, BuildContext(results), DefaultTemperature, ModelOrDefault(model), send);
        if g.answer == [] then (GenerationFailed, s)
        else Persist(s, q, documentId, model, results, g.answer, chatId, now, fault)
  }

  /** `POST /chats/query/`. */
  function Query(s: Store, req: QueryRequest, urls: seq<Endpoint>, cacheOrder: seq<Scored>,
                 docOrder: seq<Scored>, send: GenerateRequest -> Transport, chatId: string,
                 now: int, fault: Fault): (r: (QueryResponse, Store))
    ensures r.1.documents == s.documents
    ensures r.1.index.documents == s.index.documents
    ensures !(r.0.Generated? || r.0.QueryFailed?) ==> r.1 == s
  {
    match ValidateQueryRequest(req)
    case Err(errs) => (Invalid(errs), s)
    case Ok(v) =>
      match FirstExactMatch(s.chats, v.text)
      case Some(i) => (CacheMatch(s.chats[i].answer, s.chats[i].id, s.chats[i].sourceChunksMetadata), s)
      case None =>
        if fault == SimilarityFails then (Unhandled, s)
        else
          match SimilarChat(s.chats, cacheOrder)
          case Some((c, d)) => (CacheSimilar(c.answer, c.id, c.sourceChunksMetadata, 1.0 - d), s)
          case None => Answer(s, v.text, v.documentId, v.model, urls, docOrder, send, chatId, now, fault)
  }

  // ---------------------------------------------------------------------------
  // Precedence
  // ---------------------------------------------------------------------------

  /** An invalid request is answered 400 with the validation errors and
      changes nothing. */
  lemma InvalidRequestRejected(s: Store, req: QueryRequest, urls: seq<Endpoint>, cacheOrder: seq<Scored>,
                               docOrder: seq<Scored>, send: GenerateRequest -> Transport, chatId: string,
                               now: int, fault: Fault)
    requires ValidateQueryRequest(req).Err?
    ensures Query(s, req, urls, cacheOrder, docOrder, send, chatId, now, fault)
            == (Invalid(ValidateQueryRequest(req).error), s)
    ensures StatusCode(Query(s, req, urls, cacheOrder, docOrder, send, chatId, now, fault).0) == 400
  {
  }

  /** A stored question equal to the query ignoring case answers it before
      the similarity cache, the search or the generator are consulted; the
      chat returned is the newest such one. */
  lemma ExactMatchWins(s: Store, req: QueryRequest, urls: seq<Endpoint>, cacheOrder: seq<Scored>,
                       docOrder: seq<Scored>, send: GenerateRequest -> Transport, chatId: string,
                       now: int, fault: Fault, j: nat,
                       urls2: seq<Endpoint>, cacheOrder2: seq<Scored>, docOrder2: seq<Scored>,
                       send2: GenerateRequest -> Transport, chatId2: string, now2: int, fault2: Fault)
    requires ChatsNewestFirst(s.chats)
    requires ValidateQueryRequest(req).Ok?
    requires j < |s.chats| && EqualsIgnoringCase(s.chats[j].question, ValidateQueryRequest(req).value.text)
    ensures var (r, s') := Query(s, req, urls, cacheOrder, docOrder, send, chatId, now, fault);
            && r.CacheMatch? && StatusCode(r) == 200 && s' == s
            && (exists k :: && 0 <= k < |s.chats|
                            && r == CacheMatch(s.chats[k].answer, s.chats[k].id, s.chats[k].sourceChunksMetadata)
                            && EqualsIgnoringCase(s.chats[k].question, ValidateQueryRequest(req).value.text)
                            && s.chats[k].createdAt >= s.chats[j].createdAt)
            && (r, s') == Query(s, req, urls2, cacheOrder2, docOrder2, send2, chatId2, now2, fault2)
  {
    var q := ValidateQueryRequest(req).value.text;
    ExactMatchIsNewest(s.chats, q, j);
    var k := FirstExactMatch(s.chats, q).value;
    assert s.chats[k].createdAt >= s.chats[j].createdAt;
  }

  /** Without an exact match, a cached question strictly nearer than the
      threshold answers with its chat's answer and similarity `1 - distance`,
      which is above `1 - 0.15`; nothing is written. */
  lemma SimilarHitAnswers(s: Store, req: QueryRequest, urls: seq<Endpoint>, cacheOrder: seq<Scored>,
                          docOrder: seq<Scored>, send: GenerateRequest -> Transport, chatId: string,
                          now: int, fault: Fault)
    requires ValidateQueryRequest(req).Ok?
    requires FirstExactMatch(s.chats, ValidateQueryRequest(req).value.text).None?
    requires fault != SimilarityFails
    requires Ranks(cacheOrder, s.index.cachedQueries)
    requires |cacheOrder| > 0 && cacheOrder[0].distance < DefaultThreshold
    requires ChatById(s.chats, cacheOrder[0].id).Some?
    ensures var (r, s') := Query(s, req, urls, cacheOrder, docOrder, send, chatId, now, fault);
            var c := ChatById(s.chats, cacheOrder[0].id).value;
            && r == CacheSimilar(c.answer, c.id, c.sourceChunksMetadata, 1.0 - cacheOrder[0].distance)
            && c.id == cacheOrder[0].id
            && 1.0 - DefaultThreshold < r.similarityScore <= 1.0
            && StatusCode(r) == 200 && s' == s
  {
  }

  /** A similarity hit whose chat no longer exists is treated as a miss: the
      query proceeds exactly as with an empty cache. */
  lemma DanglingSimilarFallsThrough(s: Store, req: QueryRequest, urls: seq<Endpoint>, cacheOrder: seq<Scored>,
                                    docOrder: seq<Scored>, send: GenerateRequest -> Transport, chatId: string,
                                    now: int, fault: Fault)
    requires FindSimilarQuestion(cacheOrder, DefaultThreshold).Some?
    requires ChatById(s.chats, FindSimilarQuestion(cacheOrder, DefaultThreshold).value.id).None?
    ensures Query(s, req, urls, cacheOrder, docOrder, send, chatId, now, fault)
         == Query(s, req, urls, [], docOrder, send, chatId, now, fault)
  {
  }

  /** The similarity check ignores `document_id`: a cached answer is reused
      whatever document the query is scoped to. */
  lemma SimilarityIgnoresDocumentScope(s: Store, req: QueryRequest, other: Option<string>, urls: seq<Endpoint>,
                                       cacheOrder: seq<Scored>, docOrder: seq<Scored>,
                                       send: GenerateRequest -> Transport, chatId: string, now: int, fault: Fault)
    requires Query(s, req, urls, cacheOrder, docOrder, send, chatId, now, fault).0.CacheSimilar?
    ensures Query(s, req.(documentId := other), urls, cacheOrder, docOrder, send, chatId, now, fault)
         == Query(s, req, urls, cacheOrder, docOrder, send, chatId, now, fault)
  {
    ValidationIgnoresDocumentId(req, other);
    match ValidateQueryRequest(req)
    case Err(_) =>
    case Ok(v) =>
      assert ValidateQueryRequest(req.(documentId := other)) == Ok(v.(documentId := other));
      match FirstExactMatch(s.chats, v.text)
      case Some(_) =>
      case None =>
        assert SimilarChat(s.chats, cacheOrder).Some?;
  }

  /** The similarity lookup runs outside the `try`: when it raises, the
      exception leaves the view unanswered by it and nothing is written,
      whereas a failing search inside the `try` is caught and answered 500
      with an error message. An exact match still answers first. */
  lemma SimilarityFaultEscapes(s: Store, req: QueryRequest, urls: seq<Endpoint>, cacheOrder: seq<Scored>,
                               docOrder: seq<Scored>, send: GenerateRequest -> Transport, chatId: string,
                               now: int)
    requires ValidateQueryRequest(req).Ok?
    requires FirstExactMatch(s.chats, ValidateQueryRequest(req).value.text).None?
    ensures Query(s, req, urls, cacheOrder, docOrder, send, chatId, now, SimilarityFails) == (Unhandled, s)
    ensures StatusCode(Query(s, req, urls, cacheOrder, docOrder, send, chatId, now, SimilarityFails).0) == 500
    ensures SimilarChat(s.chats, cacheOrder).None? ==>
              Query(s, req, urls, cacheOrder, docOrder, send, chatId, now, SearchFails) == (QueryFailed, s)
  {
  }

  // ---------------------------------------------------------------------------
  // Retrieval and generation
  // ---------------------------------------------------------------------------

  /** The state a query reaches the search in: valid, no exact match, no
      usable similarity hit, and the search itself does not raise. */
  predicate ReachesSearch(s: Store, req: QueryRequest, cacheOrder: seq<Scored>, fault: Fault)
  {
    && ValidateQueryRequest(req).Ok?
    && FirstExactMatch(s.chats, ValidateQueryRequest(req).value.text).None?
    && fault != SimilarityFails
    && SimilarChat(s.chats, cacheOrder).None?
    && fault != SearchFails
  }

  function Retrieve(s: Store, req: QueryRequest, docOrder: seq<Scored>): seq<Retrieved>
    requires ValidateQueryRequest(req).Ok?
  {
    SearchDocumentChunks(s.index, docOrder, RetrievalCount, ValidateQueryRequest(req).value.documentId)
  }

  /** No chunk in scope: 404, the generator is never consulted, nothing is
      written. With a well-formed ranking this happens exactly when no stored
      chunk is in scope. */
  lemma NoDocumentsFound(s: Store, req: QueryRequest, urls: seq<Endpoint>, cacheOrder: seq<Scored>,
                         docOrder: seq<Scored>, send: GenerateRequest -> Transport, send2: GenerateRequest -> Transport,
                         chatId: string, now: int, fault: Fault)
    requires ReachesSearch(s, req, cacheOrder, fault)
    requires Ranks(docOrder, s.index.documents)
    requires forall id :: id in s.index.documents ==>
               !InScope(s.index.documents[id], WhereDocument(ValidateQueryRequest(req).value.documentId))
    ensures Query(s, req, urls, cacheOrder, docOrder, send, chatId, now, fault) == (NoDocuments, s)
    ensures Query(s, req, urls, cacheOrder, docOrder, send2, chatId, now, fault) == (NoDocuments, s)
  {
    SearchEmptyIff(s.index, docOrder, RetrievalCount, ValidateQueryRequest(req).value.documentId);
  }

  /** An empty answer, and only an empty answer, aborts with 500 before
      anything is written. */
  lemma EmptyAnswerAborts(s: Store, req: QueryRequest, urls: seq<Endpoint>, cacheOrder: seq<Scored>,
                          docOrder: seq<Scored>, send: GenerateRequest -> Transport,
                          chatId: string, now: int, fault: Fault)
    requires ReachesSearch(s, req, cacheOrder, fault)
    requires Retrieve(s, req, docOrder) != []
    ensures var v := ValidateQueryRequest(req).value;
            var g := GenerateAnswer(urls, v.text, BuildContext(Retrieve(s, req, docOrder)), DefaultTemperature,
                                    ModelOrDefault(v.model), send);
            (Query(s, req, urls, cacheOrder, docOrder, send, chatId, now, fault).0 == GenerationFailed
             <==> g.answer == [])
    ensures Query(s, req, urls, cacheOrder, docOrder, send, chatId, now, fault).0 == GenerationFailed ==>
              Query(s, req, urls, cacheOrder, docOrder, send, chatId, now, fault).1 == s
  {
  }

  /** Past both caches, the query is the body of the `try`. */
  lemma QueryReachesAnswer(s: Store, req: QueryRequest, urls: seq<Endpoint>, cacheOrder: seq<Scored>,
                           docOrder: seq<Scored>, send: GenerateRequest -> Transport,
                           chatId: string, now: int, fault: Fault)
    requires ValidateQueryRequest(req).Ok?
    requires FirstExactMatch(s.chats, ValidateQueryRequest(req).value.text).None?
    requires fault != SimilarityFails
    requires SimilarChat(s.chats, cacheOrder).None?
    ensures var v := ValidateQueryRequest(req).value;
            Query(s, req, urls, cacheOrder, docOrder, send, chatId, now, fault)
            == Answer(s, v.text, v.documentId, v.model, urls, docOrder, send, chatId, now, fault)
  {
  }

  /** Only the body of the `try` can write or fail with 500. */
  lemma OnlyAnswerWrites(s: Store, req: QueryRequest, urls: seq<Endpoint>, cacheOrder: seq<Scored>,
                         docOrder: seq<Scored>, send: GenerateRequest -> Transport,
                         chatId: string, now: int, fault: Fault)
    requires var r := Query(s, req, urls, cacheOrder, docOrder, send, chatId, now, fault).0;
             !(r.Invalid? || r.CacheMatch? || r.CacheSimilar? || r.Unhandled?)
    ensures ValidateQueryRequest(req).Ok?
    ensures FirstExactMatch(s.chats, ValidateQueryRequest(req).value.text).None?
    ensures fault != SimilarityFails
    ensures SimilarChat(s.chats, cacheOrder).None?
  {
    match ValidateQueryRequest(req)
    case Err(_) =>
    case Ok(v) =>
      if FirstExactMatch(s.chats, v.text).None? && fault != SimilarityFails {
        match SimilarChat(s.chats, cacheOrder)
        case None =>
        case Some(_) =>
      }
  }

  /** Once the search succeeds with results and the answer is non-empty,
      the body of the `try` is the persisting steps. */
  lemma AnswerIsPersist(s: Store, q: string, documentId: Option<string>, model: Option<string>,
                        urls: seq<Endpoint>, docOrder: seq<Scored>, send: GenerateRequest -> Transport,
                        chatId: string, now: int, fault: Fault)
    requires fault != SearchFails
    requires SearchDocumentChunks(s.index, docOrder, RetrievalCount, documentId) != []
    requires GenerateAnswer(urls, q, BuildContext(SearchDocumentChunks(s.index, docOrder, RetrievalCount, documentId)),
                            DefaultTemperature, ModelOrDefault(model), send).answer != []
    ensures var rs := SearchDocumentChunks(s.index, docOrder, RetrievalCount, documentId);
            var g := GenerateAnswer(urls, q, BuildContext(rs), DefaultTemperature, ModelOrDefault(model), send);
            Answer(s, q, documentId, model, urls, docOrder, send, chatId, now, fault)
            == Persist(s, q, documentId, model, rs, g.answer, chatId, now, fault)
  {
  }

  /** A failing cache insert keeps the chat the insert before it wrote. A
      failing link keeps that chat without its link and does not reach the
      cache insert; it cannot happen when no document is queried, since the
      link step does not run then. */
  lemma PersistLateFault(s: Store, q: string, documentId: Option<string>, model: Option<string>,
                         results: seq<Retrieved>, answer: string, chatId: string, now: int)
    requires ChatById(s.chats, chatId).None?
    ensures var ok := Persist(s, q, documentId, model, results, answer, chatId, now, NoFault).1;
            && Persist(s, q, documentId, model, results, answer, chatId, now, CacheAddFails) == (QueryFailed, ok.(index := s.index))
            && |ok.chats| == |s.chats| + 1
    ensures var chat := NewChat(s.documents, q, documentId, model, results, answer, chatId, now);
            var (r, s') := Persist(s, q, documentId, model, results, answer, chatId, now, LinkFails);
            && (Truthy(documentId) ==>
                  && r == QueryFailed
                  && s' == s.(chats := InsertNewest(chat.(documents := {}), s.chats, ChatStamp))
                  && (forall c :: c in s'.chats <==> c == chat.(documents := {}) || c in s.chats))
            && (!Truthy(documentId) ==>
                  (r, s') == Persist(s, q, documentId, model, results, answer, chatId, now, NoFault))
  {
    var chat := NewChat(s.documents, q, documentId, model, results, answer, chatId, now);
    InsertNewestContents(chat.(documents := {}), s.chats, ChatStamp);
  }

  /** When no stored chat asks `q`, a new chat asking it is the one exact
      match after the insert. */
  lemma OnlyNewChatMatches(chats: seq<Chat>, chat: Chat, q: string)
    requires forall i :: 0 <= i < |chats| ==> !EqualsIgnoringCase(chats[i].question, q)
    requires EqualsIgnoringCase(chat.question, q)
    ensures var cs := InsertNewest(chat, chats, ChatStamp);
            var m := FirstExactMatch(cs, q);
            m.Some? && cs[m.value] == chat
  {
    var cs := InsertNewest(chat, chats, ChatStamp);
    InsertNewestContents(chat, chats, ChatStamp);
    var p := Slot(chats, ChatStamp, ChatStamp(chat));
    assert cs[p] == chat;
    var m := FirstExactMatch(cs, q);
    assert cs[m.value] in cs;
  }

  /** What the body of the `try` did when it answered 201: none of its own
      steps raised (the similarity lookup is not one of them). */
  lemma AnswerGenerated(s: Store, q: string, documentId: Option<string>, model: Option<string>,
                        urls: seq<Endpoint>, docOrder: seq<Scored>, send: GenerateRequest -> Transport,
                        chatId: string, now: int, fault: Fault)
    requires Answer(s, q, documentId, model, urls, docOrder, send, chatId, now, fault).0.Generated?
    ensures var (r, s') := Answer(s, q, documentId, model, urls, docOrder, send, chatId, now, fault);
            var rs := SearchDocumentChunks(s.index, docOrder, RetrievalCount, documentId);
            var g := GenerateAnswer(urls, q, BuildContext(rs), DefaultTemperature, ModelOrDefault(model), send);
            && (fault == NoFault || fault == SimilarityFails || (fault == LinkFails && !Truthy(documentId)))
            && rs != [] && g.answer != []
            && r == Generated(g.answer, chatId, Metas(rs), |rs|)
            && ChatById(s.chats, chatId).None?
            && s'.chats == InsertNewest(NewChat(s.documents, q, documentId, model, rs, g.answer, chatId, now),
                                        s.chats, ChatStamp)
            && s'.index == AddCachedQuestion(s.index, q, chatId, g.answer)
            && s'.documents == s.documents
  {
    var rs := SearchDocumentChunks(s.index, docOrder, RetrievalCount, documentId);
    var g := GenerateAnswer(urls, q, BuildContext(rs), DefaultTemperature, ModelOrDefault(model), send);
    AnswerIsPersist(s, q, documentId, model, urls, docOrder, send, chatId, now, fault);
  }

  /** A generated answer writes exactly one chat, with the query as its
      question, no similarity score and the model defaulting to "llama3.2",
      linked to the queried document only when that document exists; and
      one cached question under the chat's id, with the answer cut to 500
      characters. The generator saw the retrieved chunks, nearest first,
      joined by the separator. */
  lemma GeneratedWritesOnce(s: Store, req: QueryRequest, urls: seq<Endpoint>, cacheOrder: seq<Scored>,
                            docOrder: seq<Scored>, send: GenerateRequest -> Transport,
                            chatId: string, now: int, fault: Fault)
    requires Query(s, req, urls, cacheOrder, docOrder, send, chatId, now, fault).0.Generated?
    ensures ValidateQueryRequest(req).Ok?
    ensures var v := ValidateQueryRequest(req).value;
            var (r, s') := Query(s, req, urls, cacheOrder, docOrder, send, chatId, now, fault);
            var rs := Retrieve(s, req, docOrder);
            var g := GenerateAnswer(urls, v.text, BuildContext(rs), DefaultTemperature, ModelOrDefault(v.model), send);
            var chat := Chat(chatId, v.text, r.answer, Linked(s.documents, v.documentId),
                             Some(r.usedChunks), None, Some(ModelOrDefault(v.model)), now);
            && StatusCode(r) == 201
            && r.answer == g.answer && r.answer != []
            && r.chatId == chatId
            && 1 <= r.chunksUsed == |rs| <= RetrievalCount
            && r.usedChunks == Metas(rs)
            && (forall c :: c in s'.chats <==> c == chat || c in s.chats)
            && |s'.chats| == |s.chats| + 1
            && (forall i :: 0 <= i < |s.chats| ==> s.chats[i].id != chatId)
            && (chatId !in s.index.cachedQueries ==>
                  s'.index.cachedQueries
                  == s.index.cachedQueries[chatId := CachedQuestion(v.text, chatId, Take(r.answer, AnswerPreviewLength))])
            && s'.documents == s.documents && s'.index.documents == s.index.documents
  {
    OnlyAnswerWrites(s, req, urls, cacheOrder, docOrder, send, chatId, now, fault);
    QueryReachesAnswer(s, req, urls, cacheOrder, docOrder, send, chatId, now, fault);
    var v := ValidateQueryRequest(req).value;
    AnswerGenerated(s, v.text, v.documentId, v.model, urls, docOrder, send, chatId, now, fault);
    var (r, s') := Query(s, req, urls, cacheOrder, docOrder, send, chatId, now, fault);
    var rs := Retrieve(s, req, docOrder);
    var chat := Chat(chatId, v.text, r.answer, Linked(s.documents, v.documentId),
                     Some(r.usedChunks), None, Some(ModelOrDefault(v.model)), now);
    assert chat == NewChat(s.documents, v.text, v.documentId, v.model, rs, r.answer, chatId, now);
    InsertNewestContents(chat, s.chats, ChatStamp);
  }

  /** A failure after the chat insert returns 500 but keeps the chat; the
      cache is not written. */
  lemma LateFaultKeepsChat(s: Store, req: QueryRequest, urls: seq<Endpoint>, cacheOrder: seq<Scored>,
                           docOrder: seq<Scored>, send: GenerateRequest -> Transport, chatId: string, now: int)
    requires Query(s, req, urls, cacheOrder, docOrder, send, chatId, now, NoFault).0.Generated?
    ensures var (r, s') := Query(s, req, urls, cacheOrder, docOrder, send, chatId, now, CacheAddFails);
            var (_, ok) := Query(s, req, urls, cacheOrder, docOrder, send, chatId, now, NoFault);
            && r == QueryFailed && StatusCode(r) == 500
            && s'.chats == ok.chats && |s'.chats| == |s.chats| + 1
            && s'.index == s.index
  {
    OnlyAnswerWrites(s, req, urls, cacheOrder, docOrder, send, chatId, now, NoFault);
    QueryReachesAnswer(s, req, urls, cacheOrder, docOrder, send, chatId, now, NoFault);
    QueryReachesAnswer(s, req, urls, cacheOrder, docOrder, send, chatId, now, CacheAddFails);
    var v := ValidateQueryRequest(req).value;
    AnswerGenerated(s, v.text, v.documentId, v.model, urls, docOrder, send, chatId, now, NoFault);
    var rs := Retrieve(s, req, docOrder);
    var g := GenerateAnswer(urls, v.text, BuildContext(rs), DefaultTemperature, ModelOrDefault(v.model), send);
    AnswerIsPersist(s, v.text, v.documentId, v.model, urls, docOrder, send, chatId, now, NoFault);
    AnswerIsPersist(s, v.text, v.documentId, v.model, urls, docOrder, send, chatId, now, CacheAddFails);
    PersistLateFault(s, v.text, v.documentId, v.model, rs, g.answer, chatId, now);
  }

  /** A query naming a document whose link step raises returns 500 but
      keeps the new chat, unlinked; the cache is not written. */
  lemma LinkFaultKeepsUnlinkedChat(s: Store, req: QueryRequest, urls: seq<Endpoint>, cacheOrder: seq<Scored>,
                                   docOrder: seq<Scored>, send: GenerateRequest -> Transport, chatId: string, now: int)
    requires Query(s, req, urls, cacheOrder, docOrder, send, chatId, now, NoFault).0.Generated?
    requires ValidateQueryRequest(req).Ok? && Truthy(ValidateQueryRequest(req).value.documentId)
    ensures var v := ValidateQueryRequest(req).value;
            var (r, s') := Query(s, req, urls, cacheOrder, docOrder, send, chatId, now, LinkFails);
            var rs := Retrieve(s, req, docOrder);
            var g := GenerateAnswer(urls, v.text, BuildContext(rs), DefaultTemperature, ModelOrDefault(v.model), send);
            var chat := Chat(chatId, v.text, g.answer, {}, Some(Metas(rs)), None, Some(ModelOrDefault(v.model)), now);
            && r == QueryFailed && StatusCode(r) == 500
            && (forall c :: c in s'.chats <==> c == chat || c in s.chats)
            && s'.index == s.index && s'.documents == s.documents
  {
    OnlyAnswerWrites(s, req, urls, cacheOrder, docOrder, send, chatId, now, NoFault);
    QueryReachesAnswer(s, req, urls, cacheOrder, docOrder, send, chatId, now, NoFault);
    QueryReachesAnswer(s, req, urls, cacheOrder, docOrder, send, chatId, now, LinkFails);
    var v := ValidateQueryRequest(req).value;
    AnswerGenerated(s, v.text, v.documentId, v.model, urls, docOrder, send, chatId, now, NoFault);
    var rs := Retrieve(s, req, docOrder);
    var g := GenerateAnswer(urls, v.text, BuildContext(rs), DefaultTemperature, ModelOrDefault(v.model), send);
    AnswerIsPersist(s, v.text, v.documentId, v.model, urls, docOrder, send, chatId, now, LinkFails);
    PersistLateFault(s, v.text, v.documentId, v.model, rs, g.answer, chatId, now);
  }

  /** Only an empty answer aborts, so a sentinel string is stored as an
      answer: with the requested model missing from the table, "Model not
      found" is saved, cached, and returned as a cache match to the same
      question asked again, whatever the table says by then. */
  lemma SentinelIsCachedAndReplayed(s: Store, req: QueryRequest, urls: seq<Endpoint>, cacheOrder: seq<Scored>,
                                    docOrder: seq<Scored>, send: GenerateRequest -> Transport,
                                    chatId: string, now: int,
                                    urls2: seq<Endpoint>, cacheOrder2: seq<Scored>, docOrder2: seq<Scored>,
                                    send2: GenerateRequest -> Transport, chatId2: string, now2: int, fault2: Fault)
    requires ReachesSearch(s, req, cacheOrder, NoFault)
    requires Retrieve(s, req, docOrder) != []
    requires forall i :: 0 <= i < |urls| ==> urls[i].model != ModelOrDefault(ValidateQueryRequest(req).value.model)
    requires forall i :: 0 <= i < |s.chats| ==> s.chats[i].id != chatId
    ensures var (r, s') := Query(s, req, urls, cacheOrder, docOrder, send, chatId, now, NoFault);
            && r.Generated? && r.answer == ModelNotFound
            && Query(s', req, urls2, cacheOrder2, docOrder2, send2, chatId2, now2, fault2)
               == (CacheMatch(ModelNotFound, chatId, Some(r.usedChunks)), s')
  {
    var v := ValidateQueryRequest(req).value;
    QueryReachesAnswer(s, req, urls, cacheOrder, docOrder, send, chatId, now, NoFault);
    var rs := Retrieve(s, req, docOrder);
    var g := GenerateAnswer(urls, v.text, BuildContext(rs), DefaultTemperature, ModelOrDefault(v.model), send);
    assert g.answer == ModelNotFound && |ModelNotFound| > 0;
    var (r, s') := Query(s, req, urls, cacheOrder, docOrder, send, chatId, now, NoFault);
    assert r.Generated?;
    AnswerGenerated(s, v.text, v.documentId, v.model, urls, docOrder, send, chatId, now, NoFault);
    var chat := NewChat(s.documents, v.text, v.documentId, v.model, rs, ModelNotFound, chatId, now);
    assert EqualsIgnoringCase(chat.question, v.text);
    OnlyNewChatMatches(s.chats, chat, v.text);
  }

  // ---------------------------------------------------------------------------
  // Invariant
  // ---------------------------------------------------------------------------

  /** Persisting keeps the store valid. */
  lemma PersistKeepsValid(s: Store, q: string, documentId: Option<string>, model: Option<string>,
                          results: seq<Retrieved>, answer: string, chatId: string, now: int, fault: Fault)
    requires Valid(s)
    ensures Valid(Persist(s, q, documentId, model, results, answer, chatId, now, fault).1)
  {
    var s' := Persist(s, q, documentId, model, results, answer, chatId, now, fault).1;
    if s' != s {
      var linked := NewChat(s.documents, q, documentId, model, results, answer, chatId, now);
      var chat := if fault == LinkFails && Truthy(documentId) then linked.(documents := {}) else linked;
      assert s'.chats == InsertNewest(chat, s.chats, ChatStamp);
      assert ChatById(s.chats, chatId).None?;
      InsertChatKeepsValid(chat, s.chats);
      InsertChatKeepsLinks(s.documents, s.chats, chat);
      CacheKeepsChatIds(s.index, q, chatId, answer);
    }
  }

  /** A chat linked only to stored documents keeps every chat's links
      pointing at stored documents. */
  lemma InsertChatKeepsLinks(docs: seq<Document>, chats: seq<Chat>, chat: Chat)
    requires forall i, d :: 0 <= i < |chats| && d in chats[i].documents ==> HasDocument(docs, d)
    requires forall d :: d in chat.documents ==> HasDocument(docs, d)
    ensures var cs := InsertNewest(chat, chats, ChatStamp);
            forall i, d :: 0 <= i < |cs| && d in cs[i].documents ==> HasDocument(docs, d)
  {
    var cs := InsertNewest(chat, chats, ChatStamp);
    InsertNewestContents(chat, chats, ChatStamp);
    forall i, d | 0 <= i < |cs| && d in cs[i].documents
      ensures HasDocument(docs, d)
    {
      var c := cs[i];
      assert c in cs;
      if c != chat {
        var k :| 0 <= k < |chats| && chats[k] == c;
      }
    }
  }

  /** Caching a question under a chat's id keeps each cached question stored
      under the id it names. */
  lemma CacheKeepsChatIds(ix: Index, q: string, chatId: string, answer: string)
    requires forall id :: id in ix.cachedQueries ==> ix.cachedQueries[id].chatId == id
    ensures var r := AddCachedQuestion(ix, q, chatId, answer);
            forall id :: id in r.cachedQueries ==> r.cachedQueries[id].chatId == id
  {
  }

  /** The body of the `try` keeps the store valid. */
  lemma AnswerKeepsValid(s: Store, q: string, documentId: Option<string>, model: Option<string>,
                         urls: seq<Endpoint>, docOrder: seq<Scored>, send: GenerateRequest -> Transport,
                         chatId: string, now: int, fault: Fault)
    requires Valid(s)
    ensures Valid(Answer(s, q, documentId, model, urls, docOrder, send, chatId, now, fault).1)
  {
    if fault != SearchFails {
      var results := SearchDocumentChunks(s.index, docOrder, RetrievalCount, documentId);
      if results != [] {
        var g := GenerateAnswer(urls, q, BuildContext(results), DefaultTemperature, ModelOrDefault(model), send);
        if g.answer != [] {
          PersistKeepsValid(s, q, documentId, model, results, g.answer, chatId, now, fault);
        }
      }
    }
  }

  /** Every query keeps the store valid. */
  lemma QueryKeepsValid(s: Store, req: QueryRequest, urls: seq<Endpoint>, cacheOrder: seq<Scored>,
                        docOrder: seq<Scored>, send: GenerateRequest -> Transport, chatId: string,
                        now: int, fault: Fault)
    requires Valid(s)
    ensures Valid(Query(s, req, urls, cacheOrder, docOrder, send, chatId, now, fault).1)
  {
    var r := Query(s, req, urls, cacheOrder, docOrder, send, chatId, now, fault).0;
    if !(r.Invalid? || r.CacheMatch? || r.CacheSimilar? || r.Unhandled?) {
      OnlyAnswerWrites(s, req, urls, cacheOrder, docOrder, send, chatId, now, fault);
      QueryReachesAnswer(s, req, urls, cacheOrder, docOrder, send, chatId, now, fault);
      var v := ValidateQueryRequest(req).value;
      AnswerKeepsValid(s, v.text, v.documentId, v.model, urls, docOrder, send, chatId, now, fault);
    }
  }
}
