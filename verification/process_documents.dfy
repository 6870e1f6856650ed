/** The document chunker and the chunk store of `process_documents.py`.

    `split_pdf_into_chunks` cuts the text of every page into consecutive,
    non-overlapping windows of `chunk_size` characters (window `k` starts at
    offset `k * chunk_size`), strips whitespace from each window, drops the
    windows that strip to nothing, and tags the rest with the 0-based page
    index.  `store_chunks_in_chromadb` adds one record per chunk/embedding
    pair to the collection. */
module ProcessDocuments {
  import opened Wrappers
  import opened Python
  import opened Pdf
  import opened VectorStore

  /** The default `chunk_size` of `split_pdf_into_chunks`. */
  const DefaultChunkSize: int := 500

  datatype Chunk = Chunk(pageNumber: nat, content: string)

  // ---------------------------------------------------------------------
  // Windows of one page

  /** `text[i:i + size]` for an offset inside the text; the slice is cut
      short at the end of the text. */
  function Window(text: string, size: nat, i: nat): (w: string)
    requires size > 0 && i < |text|
    ensures 0 < |w| <= size
  {
    text[i..Min(i + size, |text|)]
  }

  /** The windows `text[i:i + size]` visited by
      `for i in range(start, len(text), size)`, in that order. */
  function WindowsFrom(text: string, size: nat, start: nat): seq<string>
    requires size > 0
    decreases |text| - start
  {
    if start >= |text| then []
    else [Window(text, size, start)] + WindowsFrom(text, size, start + size)
  }

  /** Window `j` is the one at the `j`-th offset `range` visits. */
  lemma {:induction false} WindowsAtOffsets(text: string, size: nat, start: nat)
    requires size > 0
    ensures |WindowsFrom(text, size, start)| == |Range(start, |text|, size)|
    ensures forall j :: 0 <= j < |WindowsFrom(text, size, start)| ==>
      WindowsFrom(text, size, start)[j] == Window(text, size, Range(start, |text|, size)[j])
    decreases |text| - start
  {
    if start < |text| {
      WindowsAtOffsets(text, size, start + size);
      var rest := Range(start + size, |text|, size);
      assert Range(start, |text|, size) == [start] + rest;
    }
  }

  /** The windows, put back together, are the text again: no character is
      skipped or repeated. */
  lemma {:induction false} WindowsCover(text: string, size: nat, start: nat)
    requires size > 0 && start <= |text|
    ensures Join("", WindowsFrom(text, size, start)) == text[start..]
    decreases |text| - start
  {
    if start < |text| {
      var w := Window(text, size, start);
      var rest := WindowsFrom(text, size, start + size);
      assert WindowsFrom(text, size, start) == [w] + rest;
      JoinEmptyCons(w, rest);
      if start + size <= |text| {
        WindowsCover(text, size, start + size);
        assert text[start..] == w + text[start + size..];
      } else {
        assert rest == [] && w == text[start..];
      }
    }
  }

  // ---------------------------------------------------------------------
  // Chunks of one page

  /** `chunk = window.strip(); if chunk: ...` keeps the window. */
  predicate NonBlank(w: string) {
    Strip(w) != ""
  }

  /** The chunks made from windows `ws[k:]` of page `page`. */
  function ChunksOfWindows(page: nat, ws: seq<string>, k: nat): (cs: seq<Chunk>)
    requires k <= |ws|
    ensures |cs| == |KeptFrom(ws, NonBlank, k)|
    ensures forall j :: 0 <= j < |cs| ==>
      cs[j] == Chunk(page, Strip(ws[KeptFrom(ws, NonBlank, k)[j]]))
    decreases |ws| - k
  {
    if k == |ws| then []
    else
      var c := Strip(ws[k]);
      (if c != "" then [Chunk(page, c)] else []) + ChunksOfWindows(page, ws, k + 1)
  }

  /** `content` is a stripped window of `text` whose offset is a
      multiple of `size`. */
  ghost predicate IsWindowChunk(text: string, size: nat, content: string)
    requires size > 0
  {
    exists i: nat :: i < |text| && i % size == 0 && content == Strip(Window(text, size, i))
  }

  /** No window of `text` strips to the empty string. */
  ghost predicate NoBlankWindow(text: string, size: nat)
    requires size > 0
  {
    forall i: nat :: i < |text| && i % size == 0 ==> Strip(Window(text, size, i)) != ""
  }

  /** Where each chunk of a page starts in the page text: the offsets of
      the non-blank windows, in visiting order. */
  function ChunkOffsets(text: string, size: nat): (offs: seq<nat>)
    requires size > 0
  {
    var starts := Range(0, |text|, size);
    var ks := KeptFrom(WindowsFrom(text, size, 0), NonBlank, 0);
    WindowsAtOffsets(text, size, 0);
    seq(|ks|, j requires 0 <= j < |ks| => starts[ks[j]])
  }

  /** The chunks of a page are exactly its non-blank windows, stripped,
      in offset order: chunk `j` comes from the window at
      `ChunkOffsets(text, size)[j]`, and those offsets are multiples of
      `size` inside the text that strictly increase. */
  lemma {:induction false} PageChunksOrigin(text: string, size: nat, page: nat)
    requires size > 0
    ensures |PageChunks(text, size, page)| == |ChunkOffsets(text, size)|
    ensures forall j :: 0 <= j < |ChunkOffsets(text, size)| ==>
      && ChunkOffsets(text, size)[j] < |text|
      && ChunkOffsets(text, size)[j] % size == 0
      && PageChunks(text, size, page)[j] == Chunk(page, Strip(Window(text, size, ChunkOffsets(text, size)[j])))
    ensures forall j1, j2 :: 0 <= j1 < j2 < |ChunkOffsets(text, size)| ==>
      ChunkOffsets(text, size)[j1] < ChunkOffsets(text, size)[j2]
  {
    var ws := WindowsFrom(text, size, 0);
    WindowsAtOffsets(text, size, 0);
    var starts := Range(0, |text|, size);
    var ks := KeptFrom(ws, NonBlank, 0);
    var offs := ChunkOffsets(text, size);
    var cs := ChunksOfWindows(page, ws, 0);
    assert PageChunks(text, size, page) == cs;
    assert |offs| == |ks| == |cs|;
    DivModUnique(0, size, 0, 0);
    forall j | 0 <= j < |offs|
      ensures offs[j] < |text| && offs[j] % size == 0
      ensures cs[j] == Chunk(page, Strip(Window(text, size, offs[j])))
    {
      assert offs[j] == starts[ks[j]];
      assert ws[ks[j]] == Window(text, size, starts[ks[j]]);
    }
    forall j1, j2 | 0 <= j1 < j2 < |offs|
      ensures offs[j1] < offs[j2]
    {
      assert ks[j1] < ks[j2];
      assert offs[j1] == starts[ks[j1]] && offs[j2] == starts[ks[j2]];
    }
  }

  /** Every window that does not strip to nothing has its offset listed,
      so no non-blank part of the page is lost. */
  lemma {:induction false} ChunkOffsetsComplete(text: string, size: nat)
    requires size > 0
    ensures forall i: nat :: i < |text| && i % size == 0 && Strip(Window(text, size, i)) != "" ==>
      i in ChunkOffsets(text, size)
  {
    var ws := WindowsFrom(text, size, 0);
    WindowsAtOffsets(text, size, 0);
    var starts := Range(0, |text|, size);
    var ks := KeptFrom(ws, NonBlank, 0);
    var offs := ChunkOffsets(text, size);
    forall i: nat | i < |text| && i % size == 0 && Strip(Window(text, size, i)) != ""
      ensures i in offs
    {
      RangeComplete(0, |text|, size, i);
      var k :| 0 <= k < |starts| && starts[k] == i;
      assert NonBlank(ws[k]);
      KeptComplete(ws, NonBlank, 0, k);
      var j :| 0 <= j < |ks| && ks[j] == k;
      assert offs[j] == i;
    }
  }

  lemma AllWindowsKept(text: string, size: nat)
    requires size > 0
    requires forall k :: 0 <= k < |WindowsFrom(text, size, 0)| ==> NonBlank(WindowsFrom(text, size, 0)[k])
    ensures NoBlankWindow(text, size)
  {
    var ws := WindowsFrom(text, size, 0);
    WindowsAtOffsets(text, size, 0);
    var starts := Range(0, |text|, size);
    forall i: nat | i < |text| && i % size == 0
      ensures Strip(Window(text, size, i)) != ""
    {
      RangeComplete(0, |text|, size, i);
      var k :| 0 <= k < |starts| && starts[k] == i;
      assert NonBlank(ws[k]);
    }
  }

  lemma NoBlankWindowKeepsAll(text: string, size: nat)
    requires size > 0 && NoBlankWindow(text, size)
    ensures forall k :: 0 <= k < |WindowsFrom(text, size, 0)| ==> NonBlank(WindowsFrom(text, size, 0)[k])
  {
    var ws := WindowsFrom(text, size, 0);
    WindowsAtOffsets(text, size, 0);
    var starts := Range(0, |text|, size);
    forall k | 0 <= k < |ws|
      ensures NonBlank(ws[k])
    {
      var i := starts[k];
      DivModUnique(0, size, 0, 0);
      assert i < |text| && i % size == 0;
      assert ws[k] == Window(text, size, i);
    }
  }

  /** The chunks `split_pdf_into_chunks` emits for one page's text. */
  function PageChunks(text: string, size: nat, page: nat): (cs: seq<Chunk>)
    requires size > 0
    ensures forall j :: 0 <= j < |cs| ==>
      && cs[j].pageNumber == page
      && cs[j].content != ""
      && |cs[j].content| <= size
      && IsWindowChunk(text, size, cs[j].content)
    ensures |cs| <= CeilDiv(|text|, size)
    ensures |cs| == CeilDiv(|text|, size) <==> NoBlankWindow(text, size)
  {
    var ws := WindowsFrom(text, size, 0);
    WindowsAtOffsets(text, size, 0);
    var cs := ChunksOfWindows(page, ws, 0);
    PageChunksFacts(text, size, page, cs);
    cs
  }

  lemma PageChunksFacts(text: string, size: nat, page: nat, cs: seq<Chunk>)
    requires size > 0 && cs == ChunksOfWindows(page, WindowsFrom(text, size, 0), 0)
    ensures forall j :: 0 <= j < |cs| ==>
      && cs[j].pageNumber == page
      && cs[j].content != ""
      && |cs[j].content| <= size
      && IsWindowChunk(text, size, cs[j].content)
    ensures |cs| <= CeilDiv(|text|, size)
    ensures |cs| == CeilDiv(|text|, size) <==> NoBlankWindow(text, size)
  {
    PageChunkContents(text, size, page, cs);
    PageChunkCount(text, size, page, cs);
  }

  lemma PageChunkContents(text: string, size: nat, page: nat, cs: seq<Chunk>)
    requires size > 0 && cs == ChunksOfWindows(page, WindowsFrom(text, size, 0), 0)
    ensures forall j :: 0 <= j < |cs| ==>
      && cs[j].pageNumber == page
      && cs[j].content != ""
      && |cs[j].content| <= size
      && IsWindowChunk(text, size, cs[j].content)
  {
    var ws := WindowsFrom(text, size, 0);
    WindowsAtOffsets(text, size, 0);
    var starts := Range(0, |text|, size);
    var ks := KeptFrom(ws, NonBlank, 0);
    forall j | 0 <= j < |cs|
      ensures cs[j].content != "" && |cs[j].content| <= size
      ensures IsWindowChunk(text, size, cs[j].content)
    {
      var i := starts[ks[j]];
      DivModUnique(0, size, 0, 0);
      assert cs[j].content == Strip(Window(text, size, i));
      assert NonBlank(ws[ks[j]]);
    }
  }

  lemma PageChunkCount(text: string, size: nat, page: nat, cs: seq<Chunk>)
    requires size > 0 && cs == ChunksOfWindows(page, WindowsFrom(text, size, 0), 0)
    ensures |cs| <= CeilDiv(|text|, size)
    ensures |cs| == CeilDiv(|text|, size) <==> NoBlankWindow(text, size)
  {
    var ws := WindowsFrom(text, size, 0);
    WindowsAtOffsets(text, size, 0);
    KeptAll(ws, NonBlank, 0);
    if NoBlankWindow(text, size) {
      NoBlankWindowKeepsAll(text, size);
    }
    if forall k :: 0 <= k < |ws| ==> NonBlank(ws[k]) {
      AllWindowsKept(text, size);
    }
  }

  /** A stripped window is a substring of the page (`content in text`). */
  lemma StrippedWindowInText(text: string, size: nat, i: nat)
    requires size > 0 && i < |text|
    ensures Occurs(Strip(Window(text, size, i)), text)
  {
    var hi := Min(i + size, |text|);
    var w := Window(text, size, i);
    assert w == text[i..hi];
    var c := Strip(w);
    var a :| StripsTo(w, a, c);
    SliceOfSlice(text, i, hi, a, a + |c|);
    assert OccursAt(c, text, i + a);
  }

  // ---------------------------------------------------------------------
  // Whole document

  /** The chunks of pages `p..` of the document, or the exception the loop
      raises: `range()` refuses a step of 0 as soon as a page with text is
      reached; a negative step gives an empty range and so no chunks. */
  function SplitPagesFrom(pages: seq<Option<string>>, size: int, p: nat): (r: Result<seq<Chunk>, PyError>)
    requires p <= |pages|
    ensures r.Failure? <==> size == 0 && exists q :: p <= q < |pages| && StrTruthy(pages[q])
    ensures r.Failure? ==> r.error == ValueError
    ensures r.Success? && size <= 0 ==> r.value == []
    ensures r.Success? ==> forall j :: 0 <= j < |r.value| ==>
      && p <= r.value[j].pageNumber < |pages|
      && StrTruthy(pages[r.value[j].pageNumber])
      && size > 0
      && r.value[j].content != ""
      && |r.value[j].content| <= size
      && IsWindowChunk(pages[r.value[j].pageNumber].value, size, r.value[j].content)
    ensures r.Success? ==> forall j1, j2 :: 0 <= j1 < j2 < |r.value| ==>
      r.value[j1].pageNumber <= r.value[j2].pageNumber
    decreases |pages| - p
  {
    if p == |pages| then Success([])
    else if !StrTruthy(pages[p]) then SplitPagesFrom(pages, size, p + 1)
    else if size == 0 then Failure(ValueError)
    else
      var here := if size < 0 then [] else PageChunks(pages[p].value, size, p);
      var rest := SplitPagesFrom(pages, size, p + 1);
      Success(here + rest.value)
  }

  /** Every chunk of the document is a substring of its page's text. */
  lemma SplitPagesOccur(texts: seq<Option<string>>, size: int)
    requires SplitPagesFrom(texts, size, 0).Success?
    ensures var cs := SplitPagesFrom(texts, size, 0).value;
      forall j :: 0 <= j < |cs| ==> Occurs(cs[j].content, texts[cs[j].pageNumber].value)
  {
    var cs := SplitPagesFrom(texts, size, 0).value;
    forall j | 0 <= j < |cs|
      ensures Occurs(cs[j].content, texts[cs[j].pageNumber].value)
    {
      var text := texts[cs[j].pageNumber].value;
      var i: nat :| i < |text| && i % size == 0 && cs[j].content == Strip(Window(text, size, i));
      StrippedWindowInText(text, size, i);
    }
  }

  /** `SplitPerPage` for every page of the document at once. */
  lemma SplitPagesPerPage(texts: seq<Option<string>>, size: int)
    requires size > 0
    ensures SplitPagesFrom(texts, size, 0).Success?
    ensures forall q :: 0 <= q < |texts| ==>
      OnPage(SplitPagesFrom(texts, size, 0).value, q) ==
        if StrTruthy(texts[q]) then PageChunks(texts[q].value, size, q) else []
  {
    forall q | 0 <= q < |texts|
      ensures OnPage(SplitPagesFrom(texts, size, 0).value, q) ==
        if StrTruthy(texts[q]) then PageChunks(texts[q].value, size, q) else []
    {
      SplitPerPage(texts, size, 0, q);
    }
  }

  /** `split_pdf_into_chunks(file_path, chunk_size)` with the file already
      read: an unreadable file propagates the reader's exception. */
  function SplitPdfIntoChunks(read: PdfRead, size: int): (r: Result<seq<Chunk>, PyError>)
    ensures read.Unreadable? ==> r == Failure(ExternalError)
    ensures read.Pages? ==> (r.Failure? <==> size == 0 && exists q :: 0 <= q < |read.texts| && StrTruthy(read.texts[q]))
    ensures r.Success? ==> forall j :: 0 <= j < |r.value| ==>
      && read.Pages?
      && r.value[j].pageNumber < |read.texts|
      && StrTruthy(read.texts[r.value[j].pageNumber])
      && r.value[j].content != ""
      && |r.value[j].content| <= size
      && Occurs(r.value[j].content, read.texts[r.value[j].pageNumber].value)
    ensures r.Success? ==> forall j1, j2 :: 0 <= j1 < j2 < |r.value| ==>
      r.value[j1].pageNumber <= r.value[j2].pageNumber
    ensures read.Pages? && size > 0 ==> r.Success? && forall q :: 0 <= q < |read.texts| ==>
      OnPage(r.value, q) == if StrTruthy(read.texts[q]) then PageChunks(read.texts[q].value, size, q) else []
  {
    match read
    case Unreadable => Failure(ExternalError)
    case Pages(texts) =>
      var r := SplitPagesFrom(texts, size, 0);
      if r.Success? then
        SplitPagesOccur(texts, size);
        if size > 0 then SplitPagesPerPage(texts, size); r else r
      else r
  }

  /** `split_pdf_into_chunks(file_path)` with the default `chunk_size`:
      only an unreadable file raises, and each page's chunks are exactly
      the 500-character windows of that page's text that do not strip to
      nothing. */
  function SplitPdfIntoChunksDefault(read: PdfRead): (r: Result<seq<Chunk>, PyError>)
    ensures r.Failure? <==> read.Unreadable?
    ensures r.Success? ==> forall j :: 0 <= j < |r.value| ==>
      && r.value[j].pageNumber < |read.texts|
      && r.value[j].content != ""
      && |r.value[j].content| <= DefaultChunkSize
    ensures r.Success? ==> forall j1, j2 :: 0 <= j1 < j2 < |r.value| ==>
      r.value[j1].pageNumber <= r.value[j2].pageNumber
    ensures r.Success? ==> forall q :: 0 <= q < |read.texts| ==>
      OnPage(r.value, q) ==
        if StrTruthy(read.texts[q]) then PageChunks(read.texts[q].value, DefaultChunkSize, q) else []
  {
    SplitPdfIntoChunks(read, DefaultChunkSize)
  }

  /** The chunks of `cs` tagged with page `q`, in order. */
  function OnPage(cs: seq<Chunk>, q: nat): seq<Chunk>
    decreases |cs|
  {
    if cs == [] then []
    else (if cs[0].pageNumber == q then [cs[0]] else []) + OnPage(cs[1..], q)
  }

  lemma {:induction false} OnPageConcat(a: seq<Chunk>, b: seq<Chunk>, q: nat)
    ensures OnPage(a + b, q) == OnPage(a, q) + OnPage(b, q)
    decreases |a|
  {
    if a == [] {
      assert a + b == b;
    } else {
      OnPageConcat(a[1..], b, q);
      var head := if a[0].pageNumber == q then [a[0]] else [];
      assert (a + b)[0] == a[0] && (a + b)[1..] == a[1..] + b;
      assert OnPage(a + b, q) == head + OnPage(a[1..] + b, q);
      assert OnPage(a, q) == head + OnPage(a[1..], q);
    }
  }

  lemma {:induction false} OnPageAll(cs: seq<Chunk>, q: nat)
    requires forall j :: 0 <= j < |cs| ==> cs[j].pageNumber == q
    ensures OnPage(cs, q) == cs
    decreases |cs|
  {
    if cs != [] {
      OnPageAll(cs[1..], q);
    }
  }

  lemma {:induction false} OnPageNone(cs: seq<Chunk>, q: nat)
    requires forall j :: 0 <= j < |cs| ==> cs[j].pageNumber != q
    ensures OnPage(cs, q) == []
    decreases |cs|
  {
    if cs != [] {
      OnPageNone(cs[1..], q);
    }
  }

  /** One step of the page loop when the step is positive. */
  lemma SplitStep(pages: seq<Option<string>>, size: int, p: nat)
    requires size > 0 && p < |pages|
    ensures SplitPagesFrom(pages, size, p).Success? && SplitPagesFrom(pages, size, p + 1).Success?
    ensures SplitPagesFrom(pages, size, p).value ==
      (if StrTruthy(pages[p]) then PageChunks(pages[p].value, size, p) else []) + SplitPagesFrom(pages, size, p + 1).value
  {
  }

  /** Page by page, the document's chunks are exactly what the page
      chunker makes of that page's text; a page without text (`None` or
      empty) contributes nothing. */
  lemma {:induction false} SplitPerPage(pages: seq<Option<string>>, size: int, p: nat, q: nat)
    requires size > 0 && p <= q < |pages|
    ensures SplitPagesFrom(pages, size, p).Success?
    ensures OnPage(SplitPagesFrom(pages, size, p).value, q) ==
      if StrTruthy(pages[q]) then PageChunks(pages[q].value, size, q) else []
    decreases |pages| - p
  {
    assert SplitPagesFrom(pages, size, p).Success? && SplitPagesFrom(pages, size, p + 1).Success? by {
      SplitStep(pages, size, p);
    }
    var all := SplitPagesFrom(pages, size, p).value;
    var rest := SplitPagesFrom(pages, size, p + 1).value;
    var target := if StrTruthy(pages[q]) then PageChunks(pages[q].value, size, q) else [];
    if p < q {
      assert OnPage(rest, q) == target by {
        SplitPerPage(pages, size, p + 1, q);
      }
      assert OnPage(all, q) == OnPage(rest, q) by {
        SplitStep(pages, size, p);
        if StrTruthy(pages[p]) {
          OnPageStep(PageChunks(pages[p].value, size, p), rest, p, q);
        } else {
          assert all == rest;
        }
      }
    } else {
      assert OnPage(all, q) == target by {
        SplitStep(pages, size, p);
        if StrTruthy(pages[p]) {
          OnPageStep(PageChunks(pages[p].value, size, p), rest, p, q);
        } else {
          assert all == rest;
          OnPageNone(rest, q);
        }
      }
    }
  }

  /** Chunks of one page followed by chunks of later pages: selecting a
      page keeps the first block exactly when it is that page. */
  lemma OnPageStep(here: seq<Chunk>, rest: seq<Chunk>, p: nat, q: nat)
    requires p <= q
    requires forall j :: 0 <= j < |here| ==> here[j].pageNumber == p
    requires forall j :: 0 <= j < |rest| ==> p < rest[j].pageNumber
    ensures OnPage(here + rest, q) == if p < q then OnPage(rest, q) else here
  {
    OnPageConcat(here, rest, q);
    if p < q {
      OnPageNone(here, q);
    } else {
      OnPageNone(rest, q);
      OnPageAll(here, q);
    }
  }

  // ---------------------------------------------------------------------
  // Storing chunks

  /** `store_chunks_in_chromadb(chunks, embeddings)`: one `collection.add`
      per pair of `zip(chunks, embeddings)`, in order, each with the chunk
      text as document, its page number as metadata, the paired embedding,
      and the `i`-th id the oracle draws (`str(uuid4())`). */
  method StoreChunksInChromadb<E>(collection: Collection<E>, chunks: seq<Chunk>, embeddings: seq<E>, uuid: nat -> string)
    returns (out: Collection<E>)
    ensures |out| == |collection| + Min(|chunks|, |embeddings|)
    ensures out[..|collection|] == collection
    ensures forall i :: 0 <= i < Min(|chunks|, |embeddings|) ==>
      out[|collection| + i] == Entry(uuid(i), chunks[i].content, Some(chunks[i].pageNumber), Some(embeddings[i]))
    ensures DistinctIds(collection) && FreshDraws(uuid, Min(|chunks|, |embeddings|), collection) ==> DistinctIds(out)
  {
    var pairs := Zip(chunks, embeddings);
    out := collection;
    var i := 0;
    while i < |pairs|
      invariant 0 <= i <= |pairs|
      invariant |out| == |collection| + i
      invariant out[..|collection|] == collection
      invariant forall j :: 0 <= j < i ==>
        out[|collection| + j] == Entry(uuid(j), chunks[j].content, Some(chunks[j].pageNumber), Some(embeddings[j]))
    {
      var (chunk, embedding) := pairs[i];
      out := Add(out, Entry(uuid(i), chunk.content, Some(chunk.pageNumber), Some(embedding)));
      i := i + 1;
    }
    if DistinctIds(collection) && FreshDraws(uuid, |pairs|, collection) {
      AppendFreshKeepsDistinct(collection, out, uuid, |pairs|);
    }
  }
}
