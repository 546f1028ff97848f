/** Model of the relational records (`models.py`): uploaded documents with
    their processing status, and chat records that cache answered questions.

    A table is a sequence in the models' default ordering, newest first by
    `created_at`, so `.first()` on a filtered query is the first match in
    the sequence. Timestamps are integers. */
module Records {
  import opened Common
  import opened Chunker

  /** The `status` column's choices. */
  datatype Status = Pending | Processing | Completed | Failed

  /** The length bound declared on the `file_hash` column. */
  const FileHashMaxLength := 32

  /** The value stored in the `status` column. */
  function StatusName(st: Status): string
  {
    match st
    case Pending => "pending"
    case Processing => "processing"
    case Completed => "completed"
    case Failed => "failed"
  }

  /** The inverse of `StatusName` on the four stored names; any other value
      names no status. */
  function ParseStatus(v: string): (r: Option<Status>)
    ensures r.Some? ==> StatusName(r.value) == v
  {
    if v == "pending" then Some(Pending)
    else if v == "processing" then Some(Processing)
    else if v == "completed" then Some(Completed)
    else if v == "failed" then Some(Failed)
    else None
  }

  /** Every status survives a round trip through its stored value, and the
      four stored values are distinct. */
  lemma StatusRoundTrip(st: Status, other: Status)
    ensures ParseStatus(StatusName(st)) == Some(st)
    ensures StatusName(st) == StatusName(other) ==> st == other
  {
  }

  datatype Document = Document(
    id: string,
    name: string,
    file: string,
    fileHash: string,
    status: Status,
    pageCount: Option<int>,
    chunkCount: Option<int>,
    createdAt: int)

  datatype Chat = Chat(
    id: string,
    question: string,
    answer: string,
    documents: set<string>,
    sourceChunksMetadata: Option<seq<ChunkMeta>>,
    similarityScore: Option<real>,
    model: Option<string>,
    createdAt: int)

  // ---------------------------------------------------------------------------
  // Table invariants
  // ---------------------------------------------------------------------------

  /** `Meta.ordering = ['-created_at']`, for a row type whose creation time is
      `stamp`. */
  predicate NewestFirst<T>(rows: seq<T>, stamp: T -> int)
  {
    forall i, j :: 0 <= i < j < |rows| ==> stamp(rows[i]) >= stamp(rows[j])
  }

  function DocumentStamp(d: Document): int { d.createdAt }
  function ChatStamp(c: Chat): int { c.createdAt }

  predicate DocumentsNewestFirst(docs: seq<Document>)
  {
    NewestFirst(docs, DocumentStamp)
  }

  predicate ChatsNewestFirst(chats: seq<Chat>)
  {
    NewestFirst(chats, ChatStamp)
  }

  /** The primary key, `file_hash unique=True`, and `max_length=32` on the hash. */
  predicate DocumentsValid(docs: seq<Document>)
  {
    && DocumentsNewestFirst(docs)
    && (forall i, j :: 0 <= i < j < |docs| ==> docs[i].id != docs[j].id)
    && (forall i, j :: 0 <= i < j < |docs| ==> docs[i].fileHash != docs[j].fileHash)
    && (forall i :: 0 <= i < |docs| ==> |docs[i].fileHash| <= FileHashMaxLength)
  }

  /** The primary key, and the newest-first ordering. */
  predicate ChatsValid(chats: seq<Chat>)
  {
    && ChatsNewestFirst(chats)
    && (forall i, j :: 0 <= i < j < |chats| ==> chats[i].id != chats[j].id)
  }

  // ---------------------------------------------------------------------------
  // Lookups used by the views
  // ---------------------------------------------------------------------------

  /** `Document.objects.filter(file_hash=h).first()`, as a position. */
  function FirstWithHash(docs: seq<Document>, h: string): (r: Option<nat>)
    ensures r.None? <==> forall i :: 0 <= i < |docs| ==> docs[i].fileHash != h
    ensures r.Some? ==> r.value < |docs| && docs[r.value].fileHash == h
                        && forall j :: 0 <= j < r.value ==> docs[j].fileHash != h
  {
    if |docs| == 0 then None
    else if docs[0].fileHash == h then Some(0)
    else match FirstWithHash(docs[1..], h)
         case None => None
         case Some(i) => Some(i + 1)
  }

  /** `Chat.objects.filter(question__iexact=q).first()`, as a position. */
  function FirstExactMatch(chats: seq<Chat>, q: string): (r: Option<nat>)
    ensures r.None? <==> forall i :: 0 <= i < |chats| ==> !EqualsIgnoringCase(chats[i].question, q)
    ensures r.Some? ==> r.value < |chats| && EqualsIgnoringCase(chats[r.value].question, q)
                        && forall j :: 0 <= j < r.value ==> !EqualsIgnoringCase(chats[j].question, q)
  {
    if |chats| == 0 then None
    else if EqualsIgnoringCase(chats[0].question, q) then Some(0)
    else match FirstExactMatch(chats[1..], q)
         case None => None
         case Some(i) => Some(i + 1)
  }

  /** Because the table is newest first, the exact match that wins is the most
      recent chat whose question equals the query ignoring case. */
  lemma ExactMatchIsNewest(chats: seq<Chat>, q: string, j: nat)
    requires ChatsNewestFirst(chats)
    requires j < |chats| && EqualsIgnoringCase(chats[j].question, q)
    ensures FirstExactMatch(chats, q).Some?
    ensures chats[FirstExactMatch(chats, q).value].createdAt >= chats[j].createdAt
  {
  }

  /** `Chat.objects.get(id=id)`; `None` stands for `Chat.DoesNotExist`. */
  function ChatById(chats: seq<Chat>, id: string): (r: Option<Chat>)
    ensures r.None? <==> forall i :: 0 <= i < |chats| ==> chats[i].id != id
    ensures r.Some? ==> r.value.id == id && exists i :: 0 <= i < |chats| && chats[i] == r.value
  {
    if |chats| == 0 then None
    else if chats[0].id == id then Some(chats[0])
    else ChatById(chats[1..], id)
  }

  /** With unique ids, `get` returns the one chat holding that id. */
  lemma ChatByIdUnique(chats: seq<Chat>, i: nat)
    requires ChatsValid(chats) && i < |chats|
    ensures ChatById(chats, chats[i].id) == Some(chats[i])
  {
  }

  /** Whether `Document.objects.get(id=id)` finds a row. */
  predicate HasDocument(docs: seq<Document>, id: string)
  {
    exists i :: 0 <= i < |docs| && docs[i].id == id
  }

  // ---------------------------------------------------------------------------
  // Inserting a row
  // ---------------------------------------------------------------------------

  /** Where a row created at time `t` goes: after every strictly newer row. */
  function Slot<T>(rows: seq<T>, stamp: T -> int, t: int): (p: nat)
    ensures p <= |rows|
    ensures forall i :: 0 <= i < p ==> stamp(rows[i]) > t
    ensures p < |rows| ==> stamp(rows[p]) <= t
    decreases |rows|
  {
    if |rows| == 0 || stamp(rows[0]) <= t then 0 else 1 + Slot(rows[1..], stamp, t)
  }

  /** A freshly created row, as the table lists it. */
  function InsertNewest<T>(x: T, rows: seq<T>, stamp: T -> int): (r: seq<T>)
    ensures |r| == |rows| + 1
  {
    var p := Slot(rows, stamp, stamp(x));
    rows[..p] + [x] + rows[p..]
  }

  /** The insert adds exactly the new row, once; when no row is newer it
      goes first. */
  lemma InsertNewestContents<T>(x: T, rows: seq<T>, stamp: T -> int)
    ensures multiset(InsertNewest(x, rows, stamp)) == multiset(rows) + multiset{x}
    ensures forall y :: y in InsertNewest(x, rows, stamp) <==> y == x || y in rows
    ensures (forall i :: 0 <= i < |rows| ==> stamp(rows[i]) <= stamp(x)) ==>
              InsertNewest(x, rows, stamp) == [x] + rows
  {
    var p := Slot(rows, stamp, stamp(x));
    var r := InsertNewest(x, rows, stamp);
    assert rows == rows[..p] + rows[p..];
    assert r == rows[..p] + [x] + rows[p..];
    assert multiset(r) == multiset(rows[..p]) + multiset{x} + multiset(rows[p..]);
    if forall i :: 0 <= i < |rows| ==> stamp(rows[i]) <= stamp(x) {
      if p > 0 {
        assert false;
      }
    }
  }

  /** Inserting at the slot keeps the table newest first. */
  lemma InsertNewestKeepsOrder<T>(x: T, rows: seq<T>, stamp: T -> int)
    requires NewestFirst(rows, stamp)
    ensures NewestFirst(InsertNewest(x, rows, stamp), stamp)
  {
    var p := Slot(rows, stamp, stamp(x));
    var r := InsertNewest(x, rows, stamp);
    forall i, j | 0 <= i < j < |r| ensures stamp(r[i]) >= stamp(r[j]) {
      if j < p {
        assert r[i] == rows[i] && r[j] == rows[j];
      } else if j == p {
        assert r[i] == rows[i];
      } else if i < p {
        assert r[i] == rows[i] && r[j] == rows[j - 1];
      } else if i == p {
        assert r[j] == rows[j - 1];
        assert stamp(rows[p]) >= stamp(rows[j - 1]) || j - 1 == p;
      } else {
        assert r[i] == rows[i - 1] && r[j] == rows[j - 1];
      }
    }
  }

  /** A key unique among the rows stays unique when the new row's key is new. */
  lemma InsertNewestKeepsDistinct<T, K>(x: T, rows: seq<T>, stamp: T -> int, key: T -> K)
    requires forall i, j :: 0 <= i < j < |rows| ==> key(rows[i]) != key(rows[j])
    requires forall i :: 0 <= i < |rows| ==> key(rows[i]) != key(x)
    ensures var r := InsertNewest(x, rows, stamp);
            forall i, j :: 0 <= i < j < |r| ==> key(r[i]) != key(r[j])
  {
    var p := Slot(rows, stamp, stamp(x));
    var r := InsertNewest(x, rows, stamp);
    forall i, j | 0 <= i < j < |r| ensures key(r[i]) != key(r[j]) {
      if j < p {
        assert r[i] == rows[i] && r[j] == rows[j];
      } else if j == p {
        assert r[i] == rows[i] && r[j] == x;
      } else if i < p {
        assert r[i] == rows[i] && r[j] == rows[j - 1];
      } else if i == p {
        assert r[i] == x && r[j] == rows[j - 1];
      } else {
        assert r[i] == rows[i - 1] && r[j] == rows[j - 1];
      }
    }
  }

  function DocumentId(d: Document): string { d.id }
  function DocumentHash(d: Document): string { d.fileHash }
  function ChatId(c: Chat): string { c.id }

  /** `Document.objects.create`: a row with a new id and a new hash of legal
      length keeps the documents table valid. */
  lemma InsertDocumentKeepsValid(d: Document, docs: seq<Document>)
    requires DocumentsValid(docs)
    requires |d.fileHash| <= FileHashMaxLength
    requires forall i :: 0 <= i < |docs| ==> docs[i].id != d.id && docs[i].fileHash != d.fileHash
    ensures DocumentsValid(InsertNewest(d, docs, DocumentStamp))
  {
    var r := InsertNewest(d, docs, DocumentStamp);
    InsertNewestKeepsOrder(d, docs, DocumentStamp);
    InsertNewestKeepsDistinct(d, docs, DocumentStamp, DocumentId);
    InsertNewestKeepsDistinct(d, docs, DocumentStamp, DocumentHash);
    InsertNewestContents(d, docs, DocumentStamp);
    forall i | 0 <= i < |r| ensures |r[i].fileHash| <= FileHashMaxLength {
      assert r[i] in r;
    }
  }

  /** `Chat.objects.create`: a row with a new id keeps the chat table valid. */
  lemma InsertChatKeepsValid(c: Chat, chats: seq<Chat>)
    requires ChatsValid(chats)
    requires forall i :: 0 <= i < |chats| ==> chats[i].id != c.id
    ensures ChatsValid(InsertNewest(c, chats, ChatStamp))
  {
    InsertNewestKeepsOrder(c, chats, ChatStamp);
    InsertNewestKeepsDistinct(c, chats, ChatStamp, ChatId);
  }
}
