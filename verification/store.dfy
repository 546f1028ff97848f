/** The state both views act on: the two relational tables and the two
    vector collections. */
module AppState {
  import opened Common
  import opened Records
  import opened VectorStore

  datatype Store = Store(documents: seq<Document>, chats: seq<Chat>, index: Index)

  /** What the views keep true of the state: the table constraints, every
      chat refers only to stored documents, and a cached question is stored
      under the id its metadata names. */
  predicate Valid(s: Store)
  {
    && DocumentsValid(s.documents)
    && ChatsValid(s.chats)
    && (forall i, d :: 0 <= i < |s.chats| && d in s.chats[i].documents ==> HasDocument(s.documents, d))
    && (forall id :: id in s.index.cachedQueries ==> s.index.cachedQueries[id].chatId == id)
  }
}
