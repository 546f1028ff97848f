/** Model of the text utilities of the backend (`utils.py`): concatenating
    the pages' text, and the two chunking strategies.

    PDF parsing is not modelled: a document is the sequence of texts its pages
    yield, with "" for a page that yields none. Fresh chunk ids come from an
    oracle `uuids`, whose i-th value is the i-th uuid the chunker asks for. */
module Chunker {
  import opened Common

  /** The metadata dictionary stored with a chunk. By-size chunks carry a
      0-based index within their page; by-page chunks do not. */
  datatype ChunkMeta =
    | SizeMeta(documentId: string, source: string, page: nat, chunkIndex: nat)
    | PageMeta(documentId: string, source: string, page: nat)

  /** One chunk text with its metadata, before an id is attached. */
  datatype Piece = Piece(text: string, meta: ChunkMeta)

  /** The `(chunks, metadatas, ids)` triple of lists the chunkers return. */
  datatype Chunked = Chunked(chunks: seq<string>, metadatas: seq<ChunkMeta>, ids: seq<string>)
  {
    predicate Aligned()
    {
      |chunks| == |metadatas| == |ids|
    }
  }

  /** Window parameters of the by-size strategy. The loop advances by
      `chunkSize - overlap`, so it only terminates when that step is positive;
      the source never checks this. */
  datatype SizeConfig = SizeConfig(chunkSize: int, overlap: int)
  {
    predicate Valid()
    {
      0 < chunkSize && overlap < chunkSize
    }

    function Step(): nat
      requires Valid()
    {
      chunkSize - overlap
    }
  }

  /** The defaults of `chunk_text_by_size`, which the upload relies on. */
  const DefaultConfig := SizeConfig(1000, 200)

  /** A page both strategies drop: its text is empty or whitespace only. */
  predicate SkippedPage(text: string)
  {
    text == [] || Strip(text) == []
  }

  /** `ceil(a / b)` for a positive `b`. */
  function CeilDiv(a: nat, b: nat): nat
    requires b > 0
  {
    (a + b - 1) / b
  }

  /** `text[start:start + size]`: Python clips the slice at the end. */
  function Window(text: string, start: nat, size: nat): string
    requires start <= |text|
  {
    text[start..Min(start + size, |text|)]
  }

  // ---------------------------------------------------------------------------
  // chunk_text_by_size
  // ---------------------------------------------------------------------------

  /** The inner `while start < len(text)` loop over one page, from window
      `start` with chunk index `index` onwards. */
  function Slide(text: string, start: nat, index: nat, cfg: SizeConfig,
                 documentId: string, source: string, page: nat): seq<Piece>
    requires cfg.Valid()
    decreases |text| - start
  {
    if start < |text| then
      [Piece(Window(text, start, cfg.chunkSize), SizeMeta(documentId, source, page, index))]
      + Slide(text, start + cfg.Step(), index + 1, cfg, documentId, source, page)
    else
      []
  }

  /** The chunks of one page, numbered `page`. */
  function SizePageChunks(text: string, page: nat, cfg: SizeConfig,
                          documentId: string, source: string): seq<Piece>
    requires cfg.Valid()
  {
    if SkippedPage(text) then [] else Slide(text, 0, 0, cfg, documentId, source, page)
  }

  /** The outer loop over the pages; `first` is the 1-based number of `pages[0]`. */
  function SizePieces(pages: seq<string>, first: nat, cfg: SizeConfig,
                      documentId: string, source: string): seq<Piece>
    requires cfg.Valid()
    decreases |pages|
  {
    if |pages| == 0 then []
    else SizePageChunks(pages[0], first, cfg, documentId, source)
         + SizePieces(pages[1..], first + 1, cfg, documentId, source)
  }

  /** Attach the i-th fresh uuid to the i-th piece and split into three lists. */
  function Unzip(ps: seq<Piece>, uuids: nat -> string): (r: Chunked)
    ensures r.Aligned() && |r.chunks| == |ps|
    ensures forall i :: 0 <= i < |ps| ==> r.chunks[i] == ps[i].text && r.metadatas[i] == ps[i].meta
    ensures forall i :: 0 <= i < |ps| ==> r.ids[i] == uuids(i)
  {
    Chunked(seq(|ps|, i requires 0 <= i < |ps| => ps[i].text),
            seq(|ps|, i requires 0 <= i < |ps| => ps[i].meta),
            seq(|ps|, i requires 0 <= i < |ps| => uuids(i)))
  }

  /** `chunk_text_by_size(pdf_path, document_id, chunk_size, overlap)`. */
  function ChunkBySize(pages: seq<string>, documentId: string, source: string,
                       cfg: SizeConfig, uuids: nat -> string): (r: Chunked)
    requires cfg.Valid()
    ensures r.Aligned()
    ensures forall i :: 0 <= i < |r.ids| ==> r.ids[i] == uuids(i)
  {
    Unzip(SizePieces(pages, 1, cfg, documentId, source), uuids)
  }

  lemma CeilDivOne(a: nat, b: nat)
    requires 0 < a <= b
    ensures CeilDiv(a, b) == 1
  {
    assert b <= a + b - 1 < 2 * b;
  }

  /** A positive divisor scales the sign of a non-zero factor. */
  lemma MulBounds(d: int, b: int)
    requires b > 0
    ensures d >= 1 ==> d * b >= b
    ensures d <= -1 ==> d * b <= -b
  {
    if d >= 1 {
      assert d * b == (d - 1) * b + b;
    } else if d <= -1 {
      assert d * b == (d + 1) * b - b;
    }
  }

  /** Quotient and remainder are unique. */
  lemma DivUnique(n: int, b: int, q: int, r: int)
    requires b > 0 && 0 <= r < b && n == q * b + r
    ensures n / b == q
  {
    var q2 := n / b;
    var r2 := n % b;
    assert n == q2 * b + r2;
    var d := q - q2;
    assert d * b == q * b - q2 * b;
    assert d * b == r2 - r;
    MulBounds(d, b);
  }

  lemma AddDivisor(x: nat, b: nat)
    requires b > 0
    ensures (x + b) / b == x / b + 1
  {
    var q := x / b;
    var r := x % b;
    assert x == q * b + r;
    assert (q + 1) * b == q * b + b;
    DivUnique(x + b, b, q + 1, r);
  }

  lemma CeilDivStep(a: nat, b: nat)
    requires 0 < b < a
    ensures CeilDiv(a, b) == 1 + CeilDiv(a - b, b)
  {
    AddDivisor(a - 1, b);
    assert CeilDiv(a, b) == (a - 1 + b) / b;
    assert CeilDiv(a - b, b) == (a - 1) / b;
  }

  /** Window `k` of the loop started at `start` begins at `start + k * step`,
      spans at most `chunkSize` characters clipped at the page end, and is
      tagged with chunk index `index + k`. */
  lemma {:induction false} SlideAt(text: string, start: nat, index: nat, cfg: SizeConfig,
                                   documentId: string, source: string, page: nat, k: nat)
    requires cfg.Valid()
    requires k < |Slide(text, start, index, cfg, documentId, source, page)|
    ensures start + k * cfg.Step() < |text|
    ensures Slide(text, start, index, cfg, documentId, source, page)[k]
         == Piece(Window(text, start + k * cfg.Step(), cfg.chunkSize),
                  SizeMeta(documentId, source, page, index + k))
    decreases k
  {
    var step := cfg.Step();
    if k > 0 {
      SlideAt(text, start + step, index + 1, cfg, documentId, source, page, k - 1);
      assert start + step + (k - 1) * step == start + k * step;
    }
  }

  /** A page of length L, entered at `start < L`, yields ceil((L - start) / step) windows. */
  lemma {:induction false} SlideCount(text: string, start: nat, index: nat, cfg: SizeConfig,
                                      documentId: string, source: string, page: nat)
    requires cfg.Valid()
    ensures start < |text| ==>
              |Slide(text, start, index, cfg, documentId, source, page)| == CeilDiv(|text| - start, cfg.Step())
    ensures |text| <= start ==> Slide(text, start, index, cfg, documentId, source, page) == []
    decreases |text| - start
  {
    var step := cfg.Step();
    if start < |text| {
      SlideCount(text, start + step, index + 1, cfg, documentId, source, page);
      if start + step < |text| {
        CeilDivStep(|text| - start, step);
      } else {
        CeilDivOne(|text| - start, step);
      }
    }
  }

  /** With a non-negative overlap the step is at most the window size, so
      every character from `start` on lies inside some window. */
  lemma {:induction false} SlideCovers(text: string, start: nat, index: nat, cfg: SizeConfig,
                                       documentId: string, source: string, page: nat, j: nat)
    requires cfg.Valid() && 0 <= cfg.overlap
    requires start <= j < |text|
    ensures exists k :: 0 <= k < |Slide(text, start, index, cfg, documentId, source, page)|
                        && start + k * cfg.Step() <= j
                        && j < start + k * cfg.Step()
                               + |Slide(text, start, index, cfg, documentId, source, page)[k].text|
    decreases |text| - start
  {
    var step := cfg.Step();
    var s := Slide(text, start, index, cfg, documentId, source, page);
    if j < start + step {
      assert start + 0 * step <= j < start + 0 * step + |s[0].text|;
    } else {
      var rest := Slide(text, start + step, index + 1, cfg, documentId, source, page);
      SlideCovers(text, start + step, index + 1, cfg, documentId, source, page, j);
      var k :| 0 <= k < |rest| && start + step + k * step <= j < start + step + k * step + |rest[k].text|;
      assert s[k + 1] == rest[k];
      assert start + (k + 1) * step == start + step + k * step;
    }
  }

  /** A skipped page contributes nothing; a page of length L that is not
      skipped contributes ceil(L / step) chunks. */
  lemma PageChunkCount(text: string, page: nat, cfg: SizeConfig, documentId: string, source: string)
    requires cfg.Valid()
    ensures SkippedPage(text) ==> SizePageChunks(text, page, cfg, documentId, source) == []
    ensures !SkippedPage(text) ==>
              |SizePageChunks(text, page, cfg, documentId, source)| == CeilDiv(|text|, cfg.Step())
  {
    if !SkippedPage(text) {
      SlideCount(text, 0, 0, cfg, documentId, source, page);
    }
  }

  /** Chunk k of a page is `text[k*step : k*step + chunk_size]`, between 1 and
      `chunk_size` characters long, tagged with the page number and chunk
      index k. */
  lemma PageChunkAt(text: string, page: nat, cfg: SizeConfig, documentId: string, source: string, k: nat)
    requires cfg.Valid()
    requires k < |SizePageChunks(text, page, cfg, documentId, source)|
    ensures !SkippedPage(text)
    ensures k * cfg.Step() < |text|
    ensures SizePageChunks(text, page, cfg, documentId, source)[k]
         == Piece(Window(text, k * cfg.Step(), cfg.chunkSize), SizeMeta(documentId, source, page, k))
    ensures 1 <= |SizePageChunks(text, page, cfg, documentId, source)[k].text| <= cfg.chunkSize
  {
    var cs := SizePageChunks(text, page, cfg, documentId, source);
    assert SkippedPage(text) ==> cs == [];
    assert cs == Slide(text, 0, 0, cfg, documentId, source, page);
    SlideAt(text, 0, 0, cfg, documentId, source, page, k);
  }

  /** No gaps: with `0 <= overlap < chunk_size`, every character of a
      non-skipped page lies in at least one of its chunks. */
  lemma PageCoverage(text: string, page: nat, cfg: SizeConfig, documentId: string, source: string, j: nat)
    requires cfg.Valid() && 0 <= cfg.overlap
    requires !SkippedPage(text) && j < |text|
    ensures exists k :: 0 <= k < |SizePageChunks(text, page, cfg, documentId, source)|
                        && k * cfg.Step() <= j
                        && j < k * cfg.Step() + |SizePageChunks(text, page, cfg, documentId, source)[k].text|
  {
    SlideCovers(text, 0, 0, cfg, documentId, source, page, j);
    var k :| 0 <= k < |Slide(text, 0, 0, cfg, documentId, source, page)|
             && 0 + k * cfg.Step() <= j
             && j < 0 + k * cfg.Step() + |Slide(text, 0, 0, cfg, documentId, source, page)[k].text|;
    assert k * cfg.Step() <= j < k * cfg.Step() + |SizePageChunks(text, page, cfg, documentId, source)[k].text|;
  }

  /** Reference count: the sum over non-skipped pages of ceil(len / step). */
  function ExpectedChunkCount(pages: seq<string>, step: nat): nat
    requires step > 0
  {
    if |pages| == 0 then 0
    else (if SkippedPage(pages[0]) then 0 else CeilDiv(|pages[0]|, step))
         + ExpectedChunkCount(pages[1..], step)
  }

  lemma {:induction false} SizePiecesCount(pages: seq<string>, first: nat, cfg: SizeConfig,
                                           documentId: string, source: string)
    requires cfg.Valid()
    ensures |SizePieces(pages, first, cfg, documentId, source)| == ExpectedChunkCount(pages, cfg.Step())
    decreases |pages|
  {
    if |pages| > 0 {
      PageChunkCount(pages[0], first, cfg, documentId, source);
      SizePiecesCount(pages[1..], first + 1, cfg, documentId, source);
    }
  }

  /** A by-size piece is window `chunkIndex` of the non-skipped page its
      metadata names (pages numbered from `first`), with the given document
      id and source. */
  predicate SizePieceSound(pages: seq<string>, first: nat, cfg: SizeConfig,
                           documentId: string, source: string, pc: Piece)
    requires cfg.Valid()
  {
    var m := pc.meta;
    && m.SizeMeta? && m.documentId == documentId && m.source == source
    && first <= m.page < first + |pages|
    && !SkippedPage(pages[m.page - first])
    && m.chunkIndex * cfg.Step() < |pages[m.page - first]|
    && pc.text == Window(pages[m.page - first], m.chunkIndex * cfg.Step(), cfg.chunkSize)
  }

  /** Soundness for the later pages carries over to the whole document. */
  lemma SizePieceSoundShift(pages: seq<string>, first: nat, cfg: SizeConfig,
                            documentId: string, source: string, pc: Piece)
    requires cfg.Valid() && |pages| > 0
    requires SizePieceSound(pages[1..], first + 1, cfg, documentId, source, pc)
    ensures SizePieceSound(pages, first, cfg, documentId, source, pc)
  {
    assert pages[1..][pc.meta.page - (first + 1)] == pages[pc.meta.page - first];
  }

  /** Every by-size chunk is window `chunkIndex` of the non-skipped page its
      metadata names, and carries the given document id and source. */
  lemma {:induction false} SizePiecesSound(pages: seq<string>, first: nat, cfg: SizeConfig,
                                           documentId: string, source: string, i: nat)
    requires cfg.Valid()
    requires i < |SizePieces(pages, first, cfg, documentId, source)|
    ensures SizePieceSound(pages, first, cfg, documentId, source, SizePieces(pages, first, cfg, documentId, source)[i])
    decreases |pages|
  {
    var head := SizePageChunks(pages[0], first, cfg, documentId, source);
    var rest := SizePieces(pages[1..], first + 1, cfg, documentId, source);
    var all := SizePieces(pages, first, cfg, documentId, source);
    assert all == head + rest;
    if i < |head| {
      PageChunkAt(pages[0], first, cfg, documentId, source, i);
      assert all[i] == head[i];
    } else {
      SizePiecesSound(pages[1..], first + 1, cfg, documentId, source, i - |head|);
      assert all[i] == rest[i - |head|];
      SizePieceSoundShift(pages, first, cfg, documentId, source, all[i]);
    }
  }

  /** Every window of every non-skipped page is emitted: page `first + p`
      has chunks with indices 0 .. ceil(len / step) - 1. */
  lemma {:induction false} SizePiecesComplete(pages: seq<string>, first: nat, cfg: SizeConfig,
                                              documentId: string, source: string, p: nat, k: nat)
    requires cfg.Valid()
    requires p < |pages| && !SkippedPage(pages[p])
    requires k < CeilDiv(|pages[p]|, cfg.Step())
    ensures exists i :: 0 <= i < |SizePieces(pages, first, cfg, documentId, source)|
                        && SizePieces(pages, first, cfg, documentId, source)[i].meta
                           == SizeMeta(documentId, source, first + p, k)
    decreases p
  {
    var all := SizePieces(pages, first, cfg, documentId, source);
    var head := SizePageChunks(pages[0], first, cfg, documentId, source);
    var rest := SizePieces(pages[1..], first + 1, cfg, documentId, source);
    if p == 0 {
      PageChunkCount(pages[0], first, cfg, documentId, source);
      PageChunkAt(pages[0], first, cfg, documentId, source, k);
      assert all[k] == head[k];
    } else {
      SizePiecesComplete(pages[1..], first + 1, cfg, documentId, source, p - 1, k);
      var i :| 0 <= i < |rest| && rest[i].meta == SizeMeta(documentId, source, first + 1 + (p - 1), k);
      assert all[|head| + i] == rest[i];
    }
  }

  /** By-size chunking, whole document: the count is the sum of the per-page
      ceilings, every chunk is the window its metadata names on a non-blank
      page, every such window is present, and ids are the fresh uuids in order. */
  lemma ChunkBySizeSpec(pages: seq<string>, documentId: string, source: string,
                        cfg: SizeConfig, uuids: nat -> string)
    requires cfg.Valid()
    ensures var r := ChunkBySize(pages, documentId, source, cfg, uuids);
            && r.Aligned()
            && |r.chunks| == ExpectedChunkCount(pages, cfg.Step())
            && (forall i :: 0 <= i < |r.chunks| ==>
                  && r.metadatas[i].SizeMeta?
                  && r.metadatas[i].documentId == documentId
                  && 1 <= r.metadatas[i].page <= |pages|
                  && !SkippedPage(pages[r.metadatas[i].page - 1])
                  && r.metadatas[i].chunkIndex * cfg.Step() < |pages[r.metadatas[i].page - 1]|
                  && r.chunks[i] == Window(pages[r.metadatas[i].page - 1],
                                           r.metadatas[i].chunkIndex * cfg.Step(), cfg.chunkSize))
  {
    var ps := SizePieces(pages, 1, cfg, documentId, source);
    SizePiecesCount(pages, 1, cfg, documentId, source);
    forall i | 0 <= i < |ps|
      ensures SizePieceSound(pages, 1, cfg, documentId, source, ps[i])
    {
      SizePiecesSound(pages, 1, cfg, documentId, source, i);
    }
  }

  /** Document order of by-size chunks: by page, then by index within the page. */
  predicate SizeBefore(a: ChunkMeta, b: ChunkMeta)
  {
    && a.SizeMeta? && b.SizeMeta?
    && (a.page < b.page || (a.page == b.page && a.chunkIndex < b.chunkIndex))
  }

  /** By-size chunks come out strictly ordered by page and, within a page,
      by chunk index. */
  lemma {:induction false} SizePiecesOrdered(pages: seq<string>, first: nat, cfg: SizeConfig,
                                             documentId: string, source: string, i: nat, j: nat)
    requires cfg.Valid()
    requires i < j < |SizePieces(pages, first, cfg, documentId, source)|
    ensures SizeBefore(SizePieces(pages, first, cfg, documentId, source)[i].meta,
                       SizePieces(pages, first, cfg, documentId, source)[j].meta)
    decreases |pages|
  {
    var head := SizePageChunks(pages[0], first, cfg, documentId, source);
    var rest := SizePieces(pages[1..], first + 1, cfg, documentId, source);
    var all := SizePieces(pages, first, cfg, documentId, source);
    assert all == head + rest;
    var h := |head|;
    if j < h {
      PageChunkAt(pages[0], first, cfg, documentId, source, i);
      PageChunkAt(pages[0], first, cfg, documentId, source, j);
      assert all[i] == head[i] && all[j] == head[j];
    } else if i < h {
      PageChunkAt(pages[0], first, cfg, documentId, source, i);
      SizePiecesSound(pages[1..], first + 1, cfg, documentId, source, j - h);
      assert all[i] == head[i] && all[j] == rest[j - h];
    } else {
      SizePiecesOrdered(pages[1..], first + 1, cfg, documentId, source, i - h, j - h);
      assert all[i] == rest[i - h] && all[j] == rest[j - h];
    }
  }

  /** By-size chunking, whole document: the metadata list is strictly
      ordered by page, then by chunk index. */
  lemma ChunkBySizeOrdered(pages: seq<string>, documentId: string, source: string,
                           cfg: SizeConfig, uuids: nat -> string)
    requires cfg.Valid()
    ensures var r := ChunkBySize(pages, documentId, source, cfg, uuids);
            forall i, j :: 0 <= i < j < |r.metadatas| ==> SizeBefore(r.metadatas[i], r.metadatas[j])
  {
    var r := ChunkBySize(pages, documentId, source, cfg, uuids);
    forall i, j | 0 <= i < j < |r.metadatas|
      ensures SizeBefore(r.metadatas[i], r.metadatas[j])
    {
      SizePiecesOrdered(pages, 1, cfg, documentId, source, i, j);
    }
  }

  /** Re-chunking with another uuid supply yields the same texts and metadata. */
  lemma RechunkSameContent(pages: seq<string>, documentId: string, source: string,
                           cfg: SizeConfig, u1: nat -> string, u2: nat -> string)
    requires cfg.Valid()
    ensures ChunkBySize(pages, documentId, source, cfg, u1).chunks
         == ChunkBySize(pages, documentId, source, cfg, u2).chunks
    ensures ChunkBySize(pages, documentId, source, cfg, u1).metadatas
         == ChunkBySize(pages, documentId, source, cfg, u2).metadatas
  {
  }

  // ---------------------------------------------------------------------------
  // chunk_text_by_page
  // ---------------------------------------------------------------------------

  /** The chunk one page contributes: its whole text, unless it is skipped. */
  function PageHead(text: string, page: nat, documentId: string, source: string): (r: seq<Piece>)
    ensures |r| <= 1
    ensures r == [] <==> SkippedPage(text)
    ensures forall i :: 0 <= i < |r| ==> r[i] == Piece(text, PageMeta(documentId, source, page))
  {
    if SkippedPage(text) then [] else [Piece(text, PageMeta(documentId, source, page))]
  }

  function PagePieces(pages: seq<string>, first: nat, documentId: string, source: string): seq<Piece>
    decreases |pages|
  {
    if |pages| == 0 then []
    else PageHead(pages[0], first, documentId, source) + PagePieces(pages[1..], first + 1, documentId, source)
  }

  /** `chunk_text_by_page(pdf_path, document_id)`. */
  function ChunkByPage(pages: seq<string>, documentId: string, source: string,
                       uuids: nat -> string): (r: Chunked)
    ensures r.Aligned()
    ensures forall i :: 0 <= i < |r.ids| ==> r.ids[i] == uuids(i)
  {
    Unzip(PagePieces(pages, 1, documentId, source), uuids)
  }

  /** Each by-page chunk is the unchanged text of the non-skipped page its
      metadata names. */
  lemma {:induction false} PagePiecesSound(pages: seq<string>, first: nat, documentId: string,
                                           source: string, i: nat)
    requires i < |PagePieces(pages, first, documentId, source)|
    ensures var pc := PagePieces(pages, first, documentId, source)[i];
            && pc.meta == PageMeta(documentId, source, pc.meta.page)
            && first <= pc.meta.page < first + |pages|
            && !SkippedPage(pages[pc.meta.page - first])
            && pc.text == pages[pc.meta.page - first]
    decreases |pages|
  {
    var ps := PagePieces(pages, first, documentId, source);
    var head := PageHead(pages[0], first, documentId, source);
    var rest := PagePieces(pages[1..], first + 1, documentId, source);
    assert ps == head + rest;
    var h := |head|;
    if i < h {
      assert ps[i] == head[i];
    } else {
      PagePiecesSound(pages[1..], first + 1, documentId, source, i - h);
      assert ps[i] == rest[i - h];
      assert pages[1..][ps[i].meta.page - (first + 1)] == pages[ps[i].meta.page - first];
    }
  }

  /** By-page chunks are numbered within the pages they come from. */
  lemma {:induction false} PagePiecesBounds(pages: seq<string>, first: nat, documentId: string,
                                            source: string, i: nat)
    requires i < |PagePieces(pages, first, documentId, source)|
    ensures first <= PagePieces(pages, first, documentId, source)[i].meta.page < first + |pages|
    decreases |pages|
  {
    var ps := PagePieces(pages, first, documentId, source);
    var rest := PagePieces(pages[1..], first + 1, documentId, source);
    var h := |ps| - |rest|;
    if i >= h {
      PagePiecesBounds(pages[1..], first + 1, documentId, source, i - h);
      assert ps[i] == rest[i - h];
    }
  }

  /** By-page chunks come out in strictly increasing page order. */
  lemma {:induction false} PagePiecesOrdered(pages: seq<string>, first: nat, documentId: string,
                                             source: string, i: nat, j: nat)
    requires i < j < |PagePieces(pages, first, documentId, source)|
    ensures PagePieces(pages, first, documentId, source)[i].meta.page
          < PagePieces(pages, first, documentId, source)[j].meta.page
    decreases |pages|
  {
    var ps := PagePieces(pages, first, documentId, source);
    var rest := PagePieces(pages[1..], first + 1, documentId, source);
    var head := PageHead(pages[0], first, documentId, source);
    assert ps == head + rest;
    var h := |head|;
    PagePiecesBounds(pages[1..], first + 1, documentId, source, j - h);
    assert ps[j] == rest[j - h];
    if i >= h {
      PagePiecesOrdered(pages[1..], first + 1, documentId, source, i - h, j - h);
      assert ps[i] == rest[i - h];
    }
  }

  /** Every non-skipped page yields a by-page chunk with its number. */
  lemma {:induction false} PagePiecesComplete(pages: seq<string>, first: nat, documentId: string,
                                              source: string, p: nat)
    requires p < |pages| && !SkippedPage(pages[p])
    ensures exists i :: 0 <= i < |PagePieces(pages, first, documentId, source)|
                        && PagePieces(pages, first, documentId, source)[i]
                           == Piece(pages[p], PageMeta(documentId, source, first + p))
    decreases p
  {
    var ps := PagePieces(pages, first, documentId, source);
    var rest := PagePieces(pages[1..], first + 1, documentId, source);
    if p == 0 {
      assert ps[0] == Piece(pages[0], PageMeta(documentId, source, first));
    } else {
      PagePiecesComplete(pages[1..], first + 1, documentId, source, p - 1);
      var i :| 0 <= i < |rest| && rest[i] == Piece(pages[1..][p - 1], PageMeta(documentId, source, first + 1 + (p - 1)));
      assert ps[|ps| - |rest| + i] == rest[i];
    }
  }

  /** By-page chunking, whole document: every chunk is the unchanged text of
      the non-skipped page its metadata names, and pages come in order. */
  lemma ChunkByPageSound(pages: seq<string>, documentId: string, source: string, uuids: nat -> string)
    ensures var r := ChunkByPage(pages, documentId, source, uuids);
            && (forall i :: 0 <= i < |r.chunks| ==>
                  && r.metadatas[i] == PageMeta(documentId, source, r.metadatas[i].page)
                  && 1 <= r.metadatas[i].page <= |pages|
                  && !SkippedPage(pages[r.metadatas[i].page - 1])
                  && r.chunks[i] == pages[r.metadatas[i].page - 1])
            && (forall i, j :: 0 <= i < j < |r.chunks| ==> r.metadatas[i].page < r.metadatas[j].page)
  {
    var r := ChunkByPage(pages, documentId, source, uuids);
    forall i | 0 <= i < |r.chunks|
      ensures && r.metadatas[i] == PageMeta(documentId, source, r.metadatas[i].page)
              && 1 <= r.metadatas[i].page <= |pages|
              && !SkippedPage(pages[r.metadatas[i].page - 1])
              && r.chunks[i] == pages[r.metadatas[i].page - 1]
    {
      PagePiecesSound(pages, 1, documentId, source, i);
    }
    forall i, j | 0 <= i < j < |r.chunks|
      ensures r.metadatas[i].page < r.metadatas[j].page
    {
      PagePiecesOrdered(pages, 1, documentId, source, i, j);
    }
  }

  /** By-page chunking, whole document: every non-skipped page has its chunk,
      numbered index + 1. With the ordering above, that is exactly one chunk
      per non-skipped page. */
  lemma ChunkByPageComplete(pages: seq<string>, documentId: string, source: string, uuids: nat -> string)
    ensures var r := ChunkByPage(pages, documentId, source, uuids);
            forall p :: 0 <= p < |pages| && !SkippedPage(pages[p]) ==>
              exists i :: 0 <= i < |r.chunks| && r.chunks[i] == pages[p]
                          && r.metadatas[i] == PageMeta(documentId, source, p + 1)
  {
    var r := ChunkByPage(pages, documentId, source, uuids);
    var ps := PagePieces(pages, 1, documentId, source);
    forall p | 0 <= p < |pages| && !SkippedPage(pages[p])
      ensures exists i :: 0 <= i < |r.chunks| && r.chunks[i] == pages[p]
                          && r.metadatas[i] == PageMeta(documentId, source, p + 1)
    {
      PagePiecesComplete(pages, 1, documentId, source, p);
      var i :| 0 <= i < |ps| && ps[i] == Piece(pages[p], PageMeta(documentId, source, 1 + p));
      assert r.chunks[i] == pages[p] && r.metadatas[i] == PageMeta(documentId, source, p + 1);
    }
  }

  // ---------------------------------------------------------------------------
  // extract_text_from_pdf
  // ---------------------------------------------------------------------------

  /** Reference definition: each non-empty page's text followed by a newline. */
  function Terminated(pages: seq<string>): string
  {
    if |pages| == 0 then []
    else (if pages[0] == [] then [] else pages[0] + "\n") + Terminated(pages[1..])
  }

  lemma {:induction false} TerminatedSnoc(pages: seq<string>, p: string)
    ensures Terminated(pages + [p]) == Terminated(pages) + (if p == [] then [] else p + "\n")
    decreases |pages|
  {
    if |pages| > 0 {
      assert (pages + [p])[1..] == pages[1..] + [p];
      TerminatedSnoc(pages[1..], p);
    } else {
      assert pages + [p] == [p];
    }
  }

  lemma {:induction false} TerminatedEmptyIff(pages: seq<string>)
    ensures Terminated(pages) == [] <==> forall i :: 0 <= i < |pages| ==> pages[i] == []
    decreases |pages|
  {
    if |pages| > 0 {
      TerminatedEmptyIff(pages[1..]);
      if forall i :: 0 <= i < |pages[1..]| ==> pages[1..][i] == [] {
        if pages[0] == [] {
          forall i | 0 <= i < |pages| ensures pages[i] == [] {
            if i > 0 { assert pages[i] == pages[1..][i - 1]; }
          }
        }
      } else {
        var i :| 0 <= i < |pages[1..]| && pages[1..][i] != [];
        assert pages[i + 1] != [];
      }
    }
  }

  /** `extract_text_from_pdf`: the loop `full_text += text + "\n"` over the
      pages with text, and the page count including pages without text. */
  method ExtractText(pages: seq<string>) returns (fullText: string, pageCount: nat)
    ensures pageCount == |pages|
    ensures fullText == Terminated(pages)
    ensures fullText == [] <==> forall i :: 0 <= i < |pages| ==> pages[i] == []
  {
    fullText := [];
    var i := 0;
    while i < |pages|
      invariant 0 <= i <= |pages|
      invariant fullText == Terminated(pages[..i])
    {
      TerminatedSnoc(pages[..i], pages[i]);
      assert pages[..i + 1] == pages[..i] + [pages[i]];
      if pages[i] != [] {
        fullText := fullText + pages[i] + "\n";
      }
      i := i + 1;
    }
    assert pages[..i] == pages;
    TerminatedEmptyIff(pages);
    pageCount := |pages|;
  }
}
