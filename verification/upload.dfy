/** Model of `DocumentViewSet.upload` (`views.py`): validate the file, look
    the content hash up, create the document as `processing`, extract and
    chunk its pages, index the chunks, and record `completed` or `failed`.

    The environment is explicit: `fingerprint` is the hex digest of
    `calculate_hash`, `docId` the uuid the new row receives, `path` where
    the storage puts the file, `now` the creation time, `pdf` what reading
    the stored file yields, `uuids` the chunk ids, and `fault` the later
    step of the `try` that raises, if one does. */
module Upload {
  import opened Common
  import opened Chunker
  import opened Records
  import opened Validation
  import opened VectorStore
  import opened AppState

  /** What `PdfReader` makes of the stored file: the text of each page, or
      the error it raises (a `.txt` upload, a damaged file). */
  datatype PdfRead = Pages(pages: seq<string>) | Unreadable(error: string)

  /** The steps after reading that can raise: the vector store's `add`, and
      the `document.save()` that records `completed`, which runs after the
      chunks are indexed. */
  datatype UploadFault = NoUploadFault | IndexFails(error: string) | SaveFails(error: string)

  datatype UploadResponse =
    | UploadRejected(error: string)                                        // 400
    | AlreadyExists                                                        // 200
    | ServerError                                                          // create raised, outside the try
    | Processed(document: Document, pages: nat, chunks: nat, characters: nat)  // 200
    | ProcessingFailed(error: string, document: Document)                  // 500

  function StatusCode(r: UploadResponse): int
  {
    match r
    case UploadRejected(_) => 400
    case AlreadyExists => 200
    case ServerError => 500
    case Processed(_, _, _, _) => 200
    case ProcessingFailed(_, _) => 500
  }

  /** The processing steps inside the `try`, applied to the row created as
      `processing`: the row as finally saved, the response, and the index. */
  function Process(created: Document, path: string, pdf: PdfRead, uuids: nat -> string,
                   fault: UploadFault, ix: Index): (r: (UploadResponse, Index))
    ensures r.0.Processed? || r.0.ProcessingFailed?
    ensures r.0.Processed? <==> pdf.Pages? && fault.NoUploadFault?
    ensures r.1.cachedQueries == ix.cachedQueries
    ensures r.0.ProcessingFailed? && !(pdf.Pages? && fault.SaveFails?) ==>
              r.1 == ix && r.0.document == created.(status := Failed)
    ensures pdf.Pages? && fault.SaveFails? ==>
              && r.0.ProcessingFailed? && r.0.error == fault.error
              && r.0.document == created.(status := Failed, pageCount := Some(|pdf.pages|),
                                          chunkCount := Some(ExpectedChunkCount(pdf.pages, DefaultConfig.Step())))
              && r.1 == AddDocumentChunks(ix, ChunkBySize(pdf.pages, created.id, path, DefaultConfig, uuids)).1
    ensures r.0.Processed? ==>
              && r.0.document == created.(status := Completed, pageCount := Some(r.0.pages),
                                          chunkCount := Some(r.0.chunks))
              && r.0.pages == |pdf.pages|
              && r.0.chunks == ExpectedChunkCount(pdf.pages, DefaultConfig.Step())
              && r.0.characters == |Terminated(pdf.pages)|
  {
    match pdf
    case Unreadable(e) =>
      var failed := created.(status := Failed);
      (ProcessingFailed(e, failed), ix)
    case Pages(pages) =>
      var fullText := Terminated(pages);
      var c := ChunkBySize(pages, created.id, path, DefaultConfig, uuids);
      ChunkBySizeSpec(pages, created.id, path, DefaultConfig, uuids);
      match fault
      case IndexFails(e) =>
        (ProcessingFailed(e, created.(status := Failed)), ix)
      case SaveFails(e) =>
        // the counts were set on the row before the save raised; the
        // `except` saves the row with them
        var counted := created.(pageCount := Some(|pages|), chunkCount := Some(|c.chunks|));
        (ProcessingFailed(e, counted.(status := Failed)), AddDocumentChunks(ix, c).1)
      case NoUploadFault =>
        var done := created.(status := Completed, pageCount := Some(|pages|), chunkCount := Some(|c.chunks|));
        (Processed(done, |pages|, |c.chunks|, |fullText|), AddDocumentChunks(ix, c).1)
  }

  /** `POST /documents/upload/`. */
  function UploadDocument(s: Store, file: UploadedFile, fingerprint: seq<bv8> -> string, docId: string,
                          path: string, now: int, pdf: PdfRead, uuids: nat -> string,
                          fault: UploadFault): (r: (UploadResponse, Store))
    ensures r.1.chats == s.chats
    ensures r.1.index.cachedQueries == s.index.cachedQueries
    ensures r.0.UploadRejected? || r.0.AlreadyExists? || r.0.ServerError? ==> r.1 == s
  {
    match ValidateFile(file)
    case Err(e) => (UploadRejected(e), s)
    case Ok(f) =>
      var hash := fingerprint(f.content);
      if FirstWithHash(s.documents, hash).Some? then (AlreadyExists, s)
      else if HasDocument(s.documents, docId) then (ServerError, s)
      else
        var created := Document(docId, f.name, path, hash, Processing, None, None, now);
        var (resp, ix) := Process(created, path, pdf, uuids, fault, s.index);
        var saved := match resp
                     case Processed(d, _, _, _) => d
                     case ProcessingFailed(_, d) => d
                     case _ => created;
        (resp, Store(InsertNewest(saved, s.documents, DocumentStamp), s.chats, ix))
  }

  /** A file whose content hash is already stored is answered "already
      exists", whatever that document's status, and nothing is written. */
  lemma DuplicateIsNoOp(s: Store, file: UploadedFile, fingerprint: seq<bv8> -> string, docId: string,
                        path: string, now: int, pdf: PdfRead, uuids: nat -> string,
                        fault: UploadFault, i: nat)
    requires ValidateFile(file).Ok?
    requires i < |s.documents| && s.documents[i].fileHash == fingerprint(file.content)
    ensures UploadDocument(s, file, fingerprint, docId, path, now, pdf, uuids, fault) == (AlreadyExists, s)
  {
  }

  /** A second upload of the same bytes, after any first outcome, is a
      duplicate: the first attempt's row, even a failed one, blocks it. */
  lemma ReuploadIsDuplicate(s: Store, file: UploadedFile, renamed: string, fingerprint: seq<bv8> -> string,
                            docId: string, path: string, now: int, pdf: PdfRead, uuids: nat -> string,
                            fault: UploadFault,
                            docId2: string, path2: string, now2: int, pdf2: PdfRead, uuids2: nat -> string,
                            fault2: UploadFault)
    requires ValidateFile(file).Ok? && ValidateFile(file.(name := renamed)).Ok?
    ensures var (r1, s1) := UploadDocument(s, file, fingerprint, docId, path, now, pdf, uuids, fault);
            r1.Processed? || r1.ProcessingFailed? ==>
              UploadDocument(s1, file.(name := renamed), fingerprint, docId2, path2, now2, pdf2, uuids2, fault2)
                == (AlreadyExists, s1)
  {
    var (r1, s1) := UploadDocument(s, file, fingerprint, docId, path, now, pdf, uuids, fault);
    if r1.Processed? || r1.ProcessingFailed? {
      var saved := r1.document;
      InsertNewestContents(saved, s.documents, DocumentStamp);
      assert saved in s1.documents;
      var k :| 0 <= k < |s1.documents| && s1.documents[k] == saved;
      assert s1.documents[k].fileHash == fingerprint(file.content);
    }
  }

  /** A readable file that the index accepts ends `completed`, with the page
      count of the reader, the number of chunks of the by-size strategy
      with its defaults (which is the number stored), and those chunks
      added to the documents collection under the fresh ids. */
  lemma UploadSuccess(s: Store, file: UploadedFile, fingerprint: seq<bv8> -> string, docId: string,
                      path: string, now: int, pages: seq<string>, uuids: nat -> string)
    requires ValidateFile(file).Ok?
    requires FirstWithHash(s.documents, fingerprint(file.content)).None?
    requires !HasDocument(s.documents, docId)
    ensures var (r, s') := UploadDocument(s, file, fingerprint, docId, path, now, Pages(pages), uuids, NoUploadFault);
            var c := ChunkBySize(pages, docId, path, DefaultConfig, uuids);
            && r.Processed?
            && StatusCode(r) == 200
            && r.document == Document(docId, file.name, path, fingerprint(file.content), Completed,
                                      Some(|pages|), Some(ExpectedChunkCount(pages, DefaultConfig.Step())), now)
            && r.pages == |pages|
            && r.chunks == |c.chunks| == ExpectedChunkCount(pages, DefaultConfig.Step())
            && r.characters == |Terminated(pages)|
            && (forall d :: d in s'.documents <==> d == r.document || d in s.documents)
            && s'.index == AddDocumentChunks(s.index, c).1
  {
    ChunkBySizeSpec(pages, docId, path, DefaultConfig, uuids);
    var (r, s') := UploadDocument(s, file, fingerprint, docId, path, now, Pages(pages), uuids, NoUploadFault);
    InsertNewestContents(r.document, s.documents, DocumentStamp);
  }

  /** A read or index failure after the row is created leaves it `failed`
      with no counts, answers 500 with the error text, and indexes nothing. */
  lemma UploadFailure(s: Store, file: UploadedFile, fingerprint: seq<bv8> -> string, docId: string,
                      path: string, now: int, pdf: PdfRead, uuids: nat -> string, fault: UploadFault)
    requires ValidateFile(file).Ok?
    requires FirstWithHash(s.documents, fingerprint(file.content)).None?
    requires !HasDocument(s.documents, docId)
    requires pdf.Unreadable? || fault.IndexFails?
    ensures var (r, s') := UploadDocument(s, file, fingerprint, docId, path, now, pdf, uuids, fault);
            && r.ProcessingFailed?
            && StatusCode(r) == 500
            && r.error == (if pdf.Unreadable? then pdf.error else fault.error)
            && r.document == Document(docId, file.name, path, fingerprint(file.content), Failed, None, None, now)
            && (forall d :: d in s'.documents <==> d == r.document || d in s.documents)
            && s'.index == s.index
  {
    var (r, s') := UploadDocument(s, file, fingerprint, docId, path, now, pdf, uuids, fault);
    InsertNewestContents(r.document, s.documents, DocumentStamp);
  }

  /** A failure of the save that records `completed` comes after the add:
      the row is saved `failed` but keeps its page and chunk counts, the
      answer is 500 with the error text, and the chunks stay indexed exactly
      as a successful upload indexes them, so later queries retrieve them. */
  lemma UploadSaveFailure(s: Store, file: UploadedFile, fingerprint: seq<bv8> -> string, docId: string,
                          path: string, now: int, pages: seq<string>, uuids: nat -> string, e: string)
    requires ValidateFile(file).Ok?
    requires FirstWithHash(s.documents, fingerprint(file.content)).None?
    requires !HasDocument(s.documents, docId)
    ensures var (r, s') := UploadDocument(s, file, fingerprint, docId, path, now, Pages(pages), uuids, SaveFails(e));
            var c := ChunkBySize(pages, docId, path, DefaultConfig, uuids);
            && r.ProcessingFailed?
            && StatusCode(r) == 500
            && r.error == e
            && r.document == Document(docId, file.name, path, fingerprint(file.content), Failed,
                                      Some(|pages|), Some(ExpectedChunkCount(pages, DefaultConfig.Step())), now)
            && (forall d :: d in s'.documents <==> d == r.document || d in s.documents)
            && s'.index == AddDocumentChunks(s.index, c).1
            && s'.index == UploadDocument(s, file, fingerprint, docId, path, now, Pages(pages), uuids, NoUploadFault).1.index
            && (forall i :: 0 <= i < |c.ids| ==> c.ids[i] in s'.index.documents)
  {
    var (r, s') := UploadDocument(s, file, fingerprint, docId, path, now, Pages(pages), uuids, SaveFails(e));
    InsertNewestContents(r.document, s.documents, DocumentStamp);
  }

  /** An upload that creates a row never leaves it `pending` or
      `processing`: every created row ends `completed` or `failed`. */
  lemma UploadSettlesStatus(s: Store, file: UploadedFile, fingerprint: seq<bv8> -> string, docId: string,
                            path: string, now: int, pdf: PdfRead, uuids: nat -> string,
                            fault: UploadFault)
    ensures var (r, s') := UploadDocument(s, file, fingerprint, docId, path, now, pdf, uuids, fault);
            && (r.Processed? ==> r.document.status == Completed)
            && (r.ProcessingFailed? ==> r.document.status == Failed)
            && (|s'.documents| > |s.documents| <==> r.Processed? || r.ProcessingFailed?)
  {
  }

  /** Uploading keeps the store valid, given that fingerprints are 32-character
      digests as MD5's hex digest is. */
  lemma UploadKeepsValid(s: Store, file: UploadedFile, fingerprint: seq<bv8> -> string, docId: string,
                         path: string, now: int, pdf: PdfRead, uuids: nat -> string,
                         fault: UploadFault)
    requires Valid(s)
    requires |fingerprint(file.content)| == FileHashMaxLength
    ensures Valid(UploadDocument(s, file, fingerprint, docId, path, now, pdf, uuids, fault).1)
  {
    var (r, s') := UploadDocument(s, file, fingerprint, docId, path, now, pdf, uuids, fault);
    if r.Processed? || r.ProcessingFailed? {
      var saved := r.document;
      var hash := fingerprint(file.content);
      assert saved.id == docId && saved.fileHash == hash;
      InsertDocumentKeepsValid(saved, s.documents);
      InsertNewestContents(saved, s.documents, DocumentStamp);
      forall i, d | 0 <= i < |s'.chats| && d in s'.chats[i].documents
        ensures HasDocument(s'.documents, d)
      {
        assert s'.chats[i] == s.chats[i];
        assert HasDocument(s.documents, d);
        var k :| 0 <= k < |s.documents| && s.documents[k].id == d;
        assert s.documents[k] in s'.documents;
      }
    }
  }
}
