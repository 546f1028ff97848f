/** Model of the vector-store service (`vectordb_services.py`): two disjoint
    collections, `documents` (chunks) and `cached_queries` (answered
    questions), each a map from entry id to its stored text and metadata.

    Embedding and nearest-neighbour ranking are an oracle: for one query text
    the store supplies a ranking of a whole collection by ascending distance
    (see `Ranks`). What is modelled is the logic around it: the metadata
    filter, the number of results, the strict distance threshold, the answer
    truncation and the id-based delete and exists. */
module VectorStore {
  import opened Common
  import opened Chunker

  /** A stored chunk: its text and metadata dictionary. */
  datatype ChunkEntry = ChunkEntry(text: string, meta: ChunkMeta)

  /** A stored question: its text and the metadata `{chat_id, answer}`. */
  datatype CachedQuestion = CachedQuestion(question: string, chatId: string, answer: string)

  /** Both collections of the persistent client. */
  datatype Index = Index(documents: map<string, ChunkEntry>, cachedQueries: map<string, CachedQuestion>)

  const AnswerPreviewLength: nat := 500
  const DefaultThreshold: real := 0.15

  /** One entry of a nearest-neighbour answer. */
  datatype Scored = Scored(id: string, distance: real)

  /** A retrieved chunk, as the `ids`/`documents`/`metadatas`/`distances`
      lists of a query result hold it at one position. */
  datatype Retrieved = Retrieved(id: string, text: string, meta: ChunkMeta, distance: real)

  /** What the oracle promises: `order` lists every entry of the collection
      exactly once, by non-decreasing non-negative distance. */
  predicate Ranks<V>(order: seq<Scored>, m: map<string, V>)
  {
    && (forall i :: 0 <= i < |order| ==> order[i].id in m && 0.0 <= order[i].distance)
    && (forall i, j :: 0 <= i < j < |order| ==> order[i].id != order[j].id)
    && (forall i, j :: 0 <= i < j < |order| ==> order[i].distance <= order[j].distance)
    && (forall id :: id in m ==> exists i :: 0 <= i < |order| && order[i].id == id)
  }

  // ---------------------------------------------------------------------------
  // add_document_chunks
  // ---------------------------------------------------------------------------

  /** `collection.add` in list order: an id the collection already holds keeps
      its entry. */
  function InsertNew(docs: map<string, ChunkEntry>, ids: seq<string>, entries: seq<ChunkEntry>)
    : (r: map<string, ChunkEntry>)
    requires |ids| == |entries|
    ensures forall id :: id in docs ==> id in r && r[id] == docs[id]
    decreases |ids|
  {
    if |ids| == 0 then docs
    else InsertNew(if ids[0] in docs then docs else docs[ids[0] := entries[0]], ids[1..], entries[1..])
  }

  /** After the add the collection holds exactly the old ids and the new ones. */
  lemma {:induction false} InsertNewKeys(docs: map<string, ChunkEntry>, ids: seq<string>, entries: seq<ChunkEntry>)
    requires |ids| == |entries|
    ensures forall id :: id in InsertNew(docs, ids, entries) <==> id in docs || id in ids
    decreases |ids|
  {
    if |ids| > 0 {
      var docs' := if ids[0] in docs then docs else docs[ids[0] := entries[0]];
      InsertNewKeys(docs', ids[1..], entries[1..]);
      assert forall id :: id in ids <==> id == ids[0] || id in ids[1..] by {
        assert ids == [ids[0]] + ids[1..];
      }
    }
  }

  /** The first occurrence of a new id is the entry stored under it. */
  lemma {:induction false} InsertNewStores(docs: map<string, ChunkEntry>, ids: seq<string>, entries: seq<ChunkEntry>, i: nat)
    requires |ids| == |entries| && i < |ids|
    requires ids[i] !in docs && ids[i] !in ids[..i]
    ensures ids[i] in InsertNew(docs, ids, entries)
    ensures InsertNew(docs, ids, entries)[ids[i]] == entries[i]
    decreases i
  {
    var docs' := if ids[0] in docs then docs else docs[ids[0] := entries[0]];
    if i > 0 {
      assert ids[0] in ids[..i];
      assert ids[1..][i - 1] == ids[i] && entries[1..][i - 1] == entries[i];
      assert ids[1..][..i - 1] == ids[1..i];
      assert ids[..i] == [ids[0]] + ids[1..i];
      InsertNewStores(docs', ids[1..], entries[1..], i - 1);
    }
  }

  /** `add_document_chunks(chunks, metadatas, ids)`: writes only the documents
      collection, and reports the number of chunks it was given. */
  function AddDocumentChunks(ix: Index, c: Chunked): (r: (nat, Index))
    requires c.Aligned()
    ensures r.0 == |c.chunks|
    ensures r.1.cachedQueries == ix.cachedQueries
    ensures forall id :: id in r.1.documents <==> id in ix.documents || id in c.ids
    ensures forall id :: id in ix.documents ==> r.1.documents[id] == ix.documents[id]
    ensures forall i :: 0 <= i < |c.ids| && c.ids[i] !in ix.documents && c.ids[i] !in c.ids[..i] ==>
              c.ids[i] in r.1.documents && r.1.documents[c.ids[i]] == ChunkEntry(c.chunks[i], c.metadatas[i])
  {
    var entries := seq(|c.chunks|, i requires 0 <= i < |c.chunks| => ChunkEntry(c.chunks[i], c.metadatas[i]));
    InsertNewKeys(ix.documents, c.ids, entries);
    forall i | 0 <= i < |c.ids| && c.ids[i] !in ix.documents && c.ids[i] !in c.ids[..i]
      ensures InsertNew(ix.documents, c.ids, entries)[c.ids[i]] == entries[i]
    {
      InsertNewStores(ix.documents, c.ids, entries, i);
    }
    (|c.chunks|, ix.(documents := InsertNew(ix.documents, c.ids, entries)))
  }

  // ---------------------------------------------------------------------------
  // search_document_chunks
  // ---------------------------------------------------------------------------

  /** The value a `where` clause compares a chunk's `document_id` metadata
      with. Every chunk stores the string form of its document's id; a
      `uuid.UUID` object is equal to no string. */
  datatype FilterValue = TextValue(text: string) | UuidValue(hex: string)

  /** The `where` clause: `{"document_id": id}` only when the id is truthy,
      with the id in the string form the chunks store. */
  function WhereDocument(documentId: Option<string>): (r: Option<FilterValue>)
    ensures r.Some? <==> Truthy(documentId)
    ensures r.Some? ==> r.value == TextValue(documentId.value)
  {
    if Truthy(documentId) then Some(TextValue(documentId.value)) else None
  }

  predicate InScope(e: ChunkEntry, where: Option<FilterValue>)
  {
    where.None? || where.value == TextValue(e.meta.documentId)
  }

  /** The ranked entries that pass the filter, in ranking order. */
  function Matching(order: seq<Scored>, docs: map<string, ChunkEntry>, where: Option<FilterValue>)
    : (r: seq<Retrieved>)
    ensures |r| <= |order|
    ensures forall i :: 0 <= i < |r| ==>
              && r[i].id in docs && docs[r[i].id] == ChunkEntry(r[i].text, r[i].meta)
              && InScope(docs[r[i].id], where)
  {
    if |order| == 0 then []
    else
      var s := order[0];
      var rest := Matching(order[1..], docs, where);
      if s.id in docs && InScope(docs[s.id], where) then
        [Retrieved(s.id, docs[s.id].text, docs[s.id].meta, s.distance)] + rest
      else
        rest
  }

  /** `collection.query(n_results=k, where=where)`: the first `k` ranked
      chunks that pass the clause. */
  function SearchWhere(ix: Index, order: seq<Scored>, k: nat, where: Option<FilterValue>): (r: seq<Retrieved>)
    ensures |r| <= k
    ensures forall i :: 0 <= i < |r| ==>
              && r[i].id in ix.documents
              && ix.documents[r[i].id] == ChunkEntry(r[i].text, r[i].meta)
              && InScope(ix.documents[r[i].id], where)
  {
    var m := Matching(order, ix.documents, where);
    m[..Min(k, |m|)]
  }

  /** `search_document_chunks(query, k, document_id)`: the first `k` ranked
      chunks in scope, the id compared in its string form. */
  function SearchDocumentChunks(ix: Index, order: seq<Scored>, k: nat, documentId: Option<string>)
    : (r: seq<Retrieved>)
    ensures |r| <= k
    ensures forall i :: 0 <= i < |r| ==>
              && r[i].id in ix.documents
              && ix.documents[r[i].id] == ChunkEntry(r[i].text, r[i].meta)
              && (Truthy(documentId) ==> r[i].meta.documentId == documentId.value)
  {
    SearchWhere(ix, order, k, WhereDocument(documentId))
  }

  /** Filtering keeps only distances the ranking contained. */
  lemma {:induction false} MatchingLowerBound(order: seq<Scored>, docs: map<string, ChunkEntry>,
                                              where: Option<FilterValue>, d: real)
    requires forall i :: 0 <= i < |order| ==> d <= order[i].distance
    ensures forall i :: 0 <= i < |Matching(order, docs, where)| ==> d <= Matching(order, docs, where)[i].distance
    decreases |order|
  {
    if |order| > 0 {
      assert forall i :: 0 <= i < |order[1..]| ==> order[1..][i] == order[i + 1];
      MatchingLowerBound(order[1..], docs, where, d);
    }
  }

  predicate SortedByDistance(r: seq<Retrieved>)
  {
    forall i, j :: 0 <= i < j < |r| ==> r[i].distance <= r[j].distance
  }

  lemma {:induction false} MatchingSorted(order: seq<Scored>, docs: map<string, ChunkEntry>, where: Option<FilterValue>)
    requires forall i, j :: 0 <= i < j < |order| ==> order[i].distance <= order[j].distance
    ensures SortedByDistance(Matching(order, docs, where))
    decreases |order|
  {
    if |order| > 0 {
      var s := order[0];
      var rest := Matching(order[1..], docs, where);
      MatchingSorted(order[1..], docs, where);
      if s.id in docs && InScope(docs[s.id], where) {
        assert forall i :: 0 <= i < |order[1..]| ==> s.distance <= order[1..][i].distance by {
          forall i | 0 <= i < |order[1..]| ensures s.distance <= order[1..][i].distance {
            assert order[1..][i] == order[i + 1];
          }
        }
        MatchingLowerBound(order[1..], docs, where, s.distance);
        var r := [Retrieved(s.id, docs[s.id].text, docs[s.id].meta, s.distance)] + rest;
        assert r == Matching(order, docs, where);
        forall i, j | 0 <= i < j < |r| ensures r[i].distance <= r[j].distance {
          assert r[j] == rest[j - 1];
          assert s.distance <= rest[j - 1].distance;
          if i > 0 {
            assert r[i] == rest[i - 1];
            assert rest[i - 1].distance <= rest[j - 1].distance;
          } else {
            assert r[i].distance == s.distance;
          }
        }
      } else {
        assert rest == Matching(order, docs, where);
      }
    }
  }

  lemma {:induction false} MatchingComplete(order: seq<Scored>, docs: map<string, ChunkEntry>,
                                            where: Option<FilterValue>, j: nat)
    requires j < |order| && order[j].id in docs && InScope(docs[order[j].id], where)
    ensures exists i :: 0 <= i < |Matching(order, docs, where)|
                        && Matching(order, docs, where)[i]
                           == Retrieved(order[j].id, docs[order[j].id].text, docs[order[j].id].meta, order[j].distance)
    decreases j
  {
    var s := order[0];
    var rest := Matching(order[1..], docs, where);
    var want := Retrieved(order[j].id, docs[order[j].id].text, docs[order[j].id].meta, order[j].distance);
    if j == 0 {
      assert Matching(order, docs, where) == [want] + rest;
      assert Matching(order, docs, where)[0] == want;
    } else {
      assert order[1..][j - 1] == order[j];
      MatchingComplete(order[1..], docs, where, j - 1);
      var i :| 0 <= i < |rest| && rest[i] == want;
      if s.id in docs && InScope(docs[s.id], where) {
        var head := [Retrieved(s.id, docs[s.id].text, docs[s.id].meta, s.distance)];
        assert Matching(order, docs, where) == head + rest;
        assert Matching(order, docs, where)[i + 1] == want;
      } else {
        assert Matching(order, docs, where) == rest;
      }
    }
  }

  /** The search comes back empty exactly when no stored chunk is in scope
      (for a positive `k`): with a document id, when that document has no
      chunk in the collection. */
  lemma SearchEmptyIff(ix: Index, order: seq<Scored>, k: nat, documentId: Option<string>)
    requires Ranks(order, ix.documents) && k > 0
    ensures SearchDocumentChunks(ix, order, k, documentId) == [] <==>
              forall id :: id in ix.documents ==> !InScope(ix.documents[id], WhereDocument(documentId))
  {
    var where := WhereDocument(documentId);
    var m := Matching(order, ix.documents, where);
    var r := SearchDocumentChunks(ix, order, k, documentId);
    if exists id :: id in ix.documents && InScope(ix.documents[id], where) {
      var id :| id in ix.documents && InScope(ix.documents[id], where);
      var j :| 0 <= j < |order| && order[j].id == id;
      MatchingComplete(order, ix.documents, where, j);
      assert |m| > 0 && |r| > 0;
    }
    if r != [] {
      assert r[0] == m[0];
      assert r[0].id in ix.documents && InScope(ix.documents[r[0].id], where);
    }
  }

  /** The search returns the nearest chunks in scope, nearest first: an
      in-scope chunk strictly nearer than a returned one is itself returned. */
  lemma SearchNearest(ix: Index, order: seq<Scored>, k: nat, documentId: Option<string>)
    requires Ranks(order, ix.documents)
    ensures var r := SearchDocumentChunks(ix, order, k, documentId);
            && (forall i, j :: 0 <= i < j < |r| ==> r[i].distance <= r[j].distance)
            && (forall i, j :: 0 <= i < |r| && 0 <= j < |order|
                  && order[j].id in ix.documents && InScope(ix.documents[order[j].id], WhereDocument(documentId))
                  && order[j].distance < r[i].distance
                  ==> exists x :: 0 <= x < |r| && r[x].id == order[j].id)
  {
    var where := WhereDocument(documentId);
    var m := Matching(order, ix.documents, where);
    var r := SearchDocumentChunks(ix, order, k, documentId);
    MatchingSorted(order, ix.documents, where);
    assert forall i :: 0 <= i < |r| ==> r[i] == m[i];
    forall i, j | 0 <= i < j < |r| ensures r[i].distance <= r[j].distance {
      assert r[i] == m[i] && r[j] == m[j];
    }
    forall i, j | 0 <= i < |r| && 0 <= j < |order|
                  && order[j].id in ix.documents && InScope(ix.documents[order[j].id], where)
                  && order[j].distance < r[i].distance
      ensures exists x :: 0 <= x < |r| && r[x].id == order[j].id
    {
      MatchingComplete(order, ix.documents, where, j);
      var p :| 0 <= p < |m| && m[p] == Retrieved(order[j].id, ix.documents[order[j].id].text,
                                                  ix.documents[order[j].id].meta, order[j].distance);
      if p >= |r| {
        assert false;
      }
      assert r[p].id == order[j].id;
    }
  }

  /** Every filtered entry comes from a later-or-equal place of the ranking. */
  lemma {:induction false} MatchingFromRanking(order: seq<Scored>, docs: map<string, ChunkEntry>,
                                               where: Option<FilterValue>)
    ensures forall i :: 0 <= i < |Matching(order, docs, where)| ==>
              exists j :: 0 <= j < |order| && order[j].id == Matching(order, docs, where)[i].id
    decreases |order|
  {
    if |order| > 0 {
      var m := Matching(order, docs, where);
      var rest := Matching(order[1..], docs, where);
      MatchingFromRanking(order[1..], docs, where);
      var skip := if order[0].id in docs && InScope(docs[order[0].id], where) then 1 else 0;
      assert m == (if skip == 1 then [m[0]] else []) + rest;
      forall i | 0 <= i < |m|
        ensures exists j :: 0 <= j < |order| && order[j].id == m[i].id
      {
        if i < skip {
          assert order[0].id == m[i].id;
        } else {
          assert m[i] == rest[i - skip];
          var j :| 0 <= j < |order[1..]| && order[1..][j].id == rest[i - skip].id;
          assert order[j + 1].id == m[i].id;
        }
      }
    } else {
      assert Matching(order, docs, where) == [];
    }
  }

  /** A ranking without repeated ids filters to results without repeated ids. */
  lemma {:induction false} MatchingDistinct(order: seq<Scored>, docs: map<string, ChunkEntry>,
                                            where: Option<FilterValue>)
    requires forall i, j :: 0 <= i < j < |order| ==> order[i].id != order[j].id
    ensures forall i, j :: 0 <= i < j < |Matching(order, docs, where)| ==>
              Matching(order, docs, where)[i].id != Matching(order, docs, where)[j].id
    decreases |order|
  {
    if |order| > 0 {
      var m := Matching(order, docs, where);
      var rest := Matching(order[1..], docs, where);
      assert forall a :: 0 <= a < |order[1..]| ==> order[1..][a] == order[a + 1];
      MatchingDistinct(order[1..], docs, where);
      MatchingFromRanking(order[1..], docs, where);
      if order[0].id in docs && InScope(docs[order[0].id], where) {
        assert m == [m[0]] + rest && m[0].id == order[0].id;
        forall i, j | 0 <= i < j < |m|
          ensures m[i].id != m[j].id
        {
          assert m[j] == rest[j - 1];
          if i == 0 {
            var q :| 0 <= q < |order[1..]| && order[1..][q].id == rest[j - 1].id;
            assert order[q + 1].id == m[j].id;
          } else {
            assert m[i] == rest[i - 1];
          }
        }
      } else {
        assert m == rest;
      }
    }
  }

  /** The search returns `k` chunks, or every in-scope chunk when fewer than
      `k` are stored, and never the same chunk twice: `min(k, in-scope count)`
      results. */
  lemma SearchReturnsTopK(ix: Index, order: seq<Scored>, k: nat, documentId: Option<string>)
    requires Ranks(order, ix.documents)
    ensures var r := SearchDocumentChunks(ix, order, k, documentId);
            forall i, j :: 0 <= i < j < |r| ==> r[i].id != r[j].id
    ensures var r := SearchDocumentChunks(ix, order, k, documentId);
            || |r| == k
            || forall id :: id in ix.documents && InScope(ix.documents[id], WhereDocument(documentId)) ==>
                 exists x :: 0 <= x < |r| && r[x].id == id
  {
    var where := WhereDocument(documentId);
    var m := Matching(order, ix.documents, where);
    var r := SearchDocumentChunks(ix, order, k, documentId);
    MatchingDistinct(order, ix.documents, where);
    assert r == m[..Min(k, |m|)];
    forall i, j | 0 <= i < j < |r|
      ensures r[i].id != r[j].id
    {
      assert r[i] == m[i] && r[j] == m[j];
    }
    if |r| != k {
      assert r == m;
      forall id | id in ix.documents && InScope(ix.documents[id], where)
        ensures exists x :: 0 <= x < |r| && r[x].id == id
      {
        var j :| 0 <= j < |order| && order[j].id == id;
        MatchingComplete(order, ix.documents, where, j);
        var x :| 0 <= x < |m| && m[x] == Retrieved(id, ix.documents[id].text, ix.documents[id].meta, order[j].distance);
        assert r[x].id == id;
      }
    }
  }

  /** A search scoped to a document that has a stored chunk finds chunks,
      and only chunks of that document. */
  lemma ScopedSearchFindsDocument(ix: Index, order: seq<Scored>, k: nat, documentId: Option<string>, id: string)
    requires Ranks(order, ix.documents) && k > 0
    requires Truthy(documentId)
    requires id in ix.documents && ix.documents[id].meta.documentId == documentId.value
    ensures var r := SearchDocumentChunks(ix, order, k, documentId);
            && r != []
            && forall i :: 0 <= i < |r| ==> r[i].meta.documentId == documentId.value
  {
    SearchEmptyIff(ix, order, k, documentId);
  }

  /** The `where` clause as the query view builds it: the truthy id is the
      `uuid.UUID` the serializer's `UUIDField` produced, not its string form. */
  function WhereDocumentAsWritten(documentId: Option<string>): (r: Option<FilterValue>)
    ensures r.Some? <==> Truthy(documentId)
    ensures r.Some? ==> r.value == UuidValue(documentId.value)
  {
    if Truthy(documentId) then Some(UuidValue(documentId.value)) else None
  }

  /** A clause no stored chunk passes filters the whole ranking away. */
  lemma {:induction false} MatchingNothingInScope(order: seq<Scored>, docs: map<string, ChunkEntry>,
                                                  where: Option<FilterValue>)
    requires forall id :: id in docs ==> !InScope(docs[id], where)
    ensures Matching(order, docs, where) == []
    decreases |order|
  {
    if |order| > 0 {
      MatchingNothingInScope(order[1..], docs, where);
    }
  }

  /** As written, a scoped search finds nothing, whatever is stored: no
      chunk's string `document_id` equals a `uuid.UUID`. The unscoped search
      is unaffected. */
  lemma ScopedSearchFindsNothingAsWritten(ix: Index, order: seq<Scored>, k: nat, documentId: Option<string>)
    ensures Truthy(documentId) ==> SearchWhere(ix, order, k, WhereDocumentAsWritten(documentId)) == []
    ensures !Truthy(documentId) ==>
              SearchWhere(ix, order, k, WhereDocumentAsWritten(documentId))
              == SearchDocumentChunks(ix, order, k, documentId)
  {
    if Truthy(documentId) {
      MatchingNothingInScope(order, ix.documents, WhereDocumentAsWritten(documentId));
    }
  }

  // ---------------------------------------------------------------------------
  // delete_document_chunks, check_document_exists
  // ---------------------------------------------------------------------------

  /** `delete_document_chunks(document_id)`: removes the entry whose id is
      `document_id`, if any, and reports how many entries it removed. */
  function DeleteDocumentChunks(ix: Index, documentId: string): (r: (nat, Index))
    ensures r.0 <= 1
    ensures r.0 == 1 <==> documentId in ix.documents
    ensures r.1.cachedQueries == ix.cachedQueries
    ensures r.1.documents.Keys == ix.documents.Keys - {documentId}
    ensures forall id :: id in r.1.documents ==> r.1.documents[id] == ix.documents[id]
  {
    if documentId in ix.documents then (1, ix.(documents := ix.documents - {documentId}))
    else (0, ix)
  }

  /** `check_document_exists(document_id)`. */
  function CheckDocumentExists(ix: Index, documentId: string): (r: bool)
    ensures r <==> DeleteDocumentChunks(ix, documentId).0 == 1
  {
    documentId in ix.documents
  }

  /** Delete reports a removal exactly when exists would have said yes, and
      afterwards exists says no. */
  lemma DeleteAgreesWithExists(ix: Index, documentId: string)
    ensures DeleteDocumentChunks(ix, documentId).0 > 0 <==> CheckDocumentExists(ix, documentId)
    ensures !CheckDocumentExists(DeleteDocumentChunks(ix, documentId).1, documentId)
  {
  }

  /** Both operations look up an entry id, not the `document_id` metadata:
      once a document's chunks are stored under ids other than the document's
      own id, the document does not "exist" and deleting it removes nothing,
      although its chunks are in the collection. */
  lemma ChunksInvisibleToDocumentId(ix: Index, c: Chunked, documentId: string)
    requires c.Aligned()
    requires documentId !in ix.documents
    requires forall i :: 0 <= i < |c.ids| ==> c.ids[i] != documentId
    ensures var ix' := AddDocumentChunks(ix, c).1;
            && !CheckDocumentExists(ix', documentId)
            && DeleteDocumentChunks(ix', documentId) == (0, ix')
            && forall i :: 0 <= i < |c.ids| ==> c.ids[i] in ix'.documents
  {
    var ix' := AddDocumentChunks(ix, c).1;
    assert forall i :: 0 <= i < |c.ids| ==> c.ids[i] in c.ids;
  }

  // ---------------------------------------------------------------------------
  // add_cached_question, find_similar_question
  // ---------------------------------------------------------------------------

  /** `add_cached_question(query, chat_id, answer)`: the question is stored
      under the chat's id with the first 500 characters of the answer; only
      the cached_queries collection is written. */
  function AddCachedQuestion(ix: Index, query: string, chatId: string, answer: string): (r: Index)
    ensures r.documents == ix.documents
    ensures r.cachedQueries.Keys == ix.cachedQueries.Keys + {chatId}
    ensures chatId !in ix.cachedQueries ==>
              && r.cachedQueries == ix.cachedQueries[chatId := r.cachedQueries[chatId]]
              && r.cachedQueries[chatId].question == query
              && r.cachedQueries[chatId].chatId == chatId
              && |r.cachedQueries[chatId].answer| == Min(|answer|, AnswerPreviewLength)
              && r.cachedQueries[chatId].answer == answer[..|r.cachedQueries[chatId].answer|]
    ensures chatId in ix.cachedQueries ==> r == ix
  {
    if chatId in ix.cachedQueries then ix
    else ix.(cachedQueries := ix.cachedQueries[chatId := CachedQuestion(query, chatId, Take(answer, AnswerPreviewLength))])
  }

  /** `find_similar_question(query, threshold)`: the single nearest cached
      question, only when its distance is strictly below the threshold. */
  function FindSimilarQuestion(order: seq<Scored>, threshold: real): (r: Option<Scored>)
    ensures |order| == 0 ==> r.None?
    ensures r.Some? ==> r.value == order[0] && r.value.distance < threshold
    ensures |order| > 0 && order[0].distance >= threshold ==> r.None?
  {
    if |order| == 0 then None
    else if order[0].distance < threshold then Some(order[0])
    else None
  }

  /** Over a well-formed ranking there is a hit exactly when some cached
      question is strictly closer than the threshold; a question exactly at
      the threshold is a miss; the hit is a stored entry no farther than any
      other. */
  lemma SimilarHitIff(cache: map<string, CachedQuestion>, order: seq<Scored>, threshold: real)
    requires Ranks(order, cache)
    ensures FindSimilarQuestion(order, threshold).Some? <==>
              exists i :: 0 <= i < |order| && order[i].distance < threshold
    ensures FindSimilarQuestion(order, threshold).Some? ==>
              && FindSimilarQuestion(order, threshold).value.id in cache
              && forall i :: 0 <= i < |order| ==> FindSimilarQuestion(order, threshold).value.distance <= order[i].distance
    ensures (exists id :: id in cache) && (forall i :: 0 <= i < |order| ==> order[i].distance >= threshold) ==>
              FindSimilarQuestion(order, threshold).None?
  {
    if exists i :: 0 <= i < |order| && order[i].distance < threshold {
      var i :| 0 <= i < |order| && order[i].distance < threshold;
      assert order[0].distance <= order[i].distance;
    }
    if FindSimilarQuestion(order, threshold).Some? {
      forall i | 0 <= i < |order| ensures order[0].distance <= order[i].distance {
        if i > 0 { assert order[0].distance <= order[i].distance; }
      }
    }
  }
}
