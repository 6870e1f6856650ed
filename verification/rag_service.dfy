/** The retrieval-augmented question answering of `rag_service.py`:
    page texts go into the vector store one record per page, the best
    matches for a question are joined into one excerpt block, and the
    question plus excerpts are sent to a chat-completion model.  The
    similarity search and the completion call are oracles. */
module RagService {
  import opened Wrappers
  import opened Python
  import opened Pdf
  import opened VectorStore

  /** Two newlines, 54 dashes, two newlines. */
  const ExcerptSeparator: string := "\n\n------------------------------------------------------\n\n"

  /** How many search results make it into the excerpt block. */
  const ExcerptCount: nat := 3

  const ModelName: string := "llama-3.3-70b-versatile"

  const SystemPrompt: string :=
    "\n    You are an expert assistant. Based on the user's question and relevant excerpts from the documents,\n"
    + "    provide an accurate response. Include references to the excerpts wherever applicable.\n    "

  const Fallback: string := "Unable to generate a response at this time."

  // ---------------------------------------------------------------------
  // extract_text_from_pdf

  /** The texts of the pages from `k` on whose extraction is truthy. */
  function TruthyTextsFrom(texts: seq<Option<string>>, k: nat): (r: seq<string>)
    requires k <= |texts|
    ensures |r| == |KeptFrom(texts, StrTruthy, k)|
    ensures forall j :: 0 <= j < |r| ==> texts[KeptFrom(texts, StrTruthy, k)[j]] == Some(r[j])
    ensures forall j :: 0 <= j < |r| ==> r[j] != ""
    decreases |texts| - k
  {
    if k == |texts| then []
    else (if StrTruthy(texts[k]) then [texts[k].value] else []) + TruthyTextsFrom(texts, k + 1)
  }

  /** `extract_text_from_pdf(pdf_path)`: the non-empty page texts in page
      order; a reader failure yields no texts at all. */
  function ExtractTextFromPdf(read: PdfRead): (texts: seq<string>)
    ensures read.Unreadable? ==> texts == []
    ensures forall j :: 0 <= j < |texts| ==> texts[j] != ""
    ensures read.Pages? ==>
      && |texts| == |KeptFrom(read.texts, StrTruthy, 0)|
      && forall j :: 0 <= j < |texts| ==> read.texts[KeptFrom(read.texts, StrTruthy, 0)[j]] == Some(texts[j])
  {
    if read.Unreadable? then [] else TruthyTextsFrom(read.texts, 0)
  }

  /** No page with text is lost: every truthy page text is returned, and
      the result is exactly as long as the page list iff every page has
      text. */
  lemma {:induction false} ExtractKeepsEveryText(read: PdfRead, i: nat)
    requires read.Pages? && i < |read.texts| && StrTruthy(read.texts[i])
    ensures read.texts[i].value in ExtractTextFromPdf(read)
    ensures |ExtractTextFromPdf(read)| == |read.texts| <==> forall p :: 0 <= p < |read.texts| ==> StrTruthy(read.texts[p])
  {
    var ks := KeptFrom(read.texts, StrTruthy, 0);
    KeptComplete(read.texts, StrTruthy, 0, i);
    var j :| 0 <= j < |ks| && ks[j] == i;
    assert ExtractTextFromPdf(read)[j] == read.texts[i].value;
    KeptAll(read.texts, StrTruthy, 0);
  }

  // ---------------------------------------------------------------------
  // store_document_in_chroma

  /** The loop of `store_document_in_chroma`: one `add_texts` per text,
      with the `i`-th `uuid4()` draw as its id and no metadata; the store
      computes the embedding itself. */
  method AddTexts<E>(collection: Collection<E>, texts: seq<string>, uuid: nat -> string)
    returns (out: Collection<E>)
    ensures |out| == |collection| + |texts|
    ensures out[..|collection|] == collection
    ensures forall i :: 0 <= i < |texts| ==> out[|collection| + i] == Entry(uuid(i), texts[i], None, None)
    ensures DistinctIds(collection) && FreshDraws(uuid, |texts|, collection) ==> DistinctIds(out)
  {
    out := collection;
    var i := 0;
    while i < |texts|
      invariant 0 <= i <= |texts|
      invariant |out| == |collection| + i
      invariant out[..|collection|] == collection
      invariant forall j :: 0 <= j < i ==> out[|collection| + j] == Entry(uuid(j), texts[j], None, None)
    {
      out := Add(out, Entry(uuid(i), texts[i], None, None));
      i := i + 1;
    }
    if DistinctIds(collection) && FreshDraws(uuid, |texts|, collection) {
      AppendFreshKeepsDistinct(collection, out, uuid, |texts|);
    }
  }

  /** `store_document_in_chroma(docsearch, pdf_path)`: one record per
      extracted page text, in page order.  A PDF without text (or one the
      reader rejects) leaves the collection as it was. */
  method StoreDocumentInChroma<E>(collection: Collection<E>, read: PdfRead, uuid: nat -> string)
    returns (out: Collection<E>)
    ensures var texts := ExtractTextFromPdf(read);
      && (texts == [] ==> out == collection)
      && |out| == |collection| + |texts|
      && out[..|collection|] == collection
      && (forall i :: 0 <= i < |texts| ==> out[|collection| + i] == Entry(uuid(i), texts[i], None, None))
      && (DistinctIds(collection) && FreshDraws(uuid, |texts|, collection) ==> DistinctIds(out))
  {
    var texts := ExtractTextFromPdf(read);
    if texts == [] {
      return collection;
    }
    out := AddTexts(collection, texts, uuid);
  }

  // ---------------------------------------------------------------------
  // get_relevant_excerpts

  /** `get_relevant_excerpts(docsearch, user_question)`, given what the
      similarity search returned (the documents' `page_content`, best
      first) or raised. */
  function GetRelevantExcerpts(search: Result<seq<string>, PyError>): (excerpts: string)
    ensures search.Failure? ==> excerpts == ""
    ensures search.Success? && |search.value| == 0 ==> excerpts == ""
    ensures search.Success? && |search.value| == 1 ==> excerpts == search.value[0]
  {
    match search
    case Failure(_) => ""
    case Success(docs) => Join(ExcerptSeparator, docs[..Min(ExcerptCount, |docs|)])
  }

  /** The top documents in the order the search ranked them. */
  function Top(docs: seq<string>): (top: seq<string>)
    ensures |top| == Min(ExcerptCount, |docs|) && top == docs[..|top|]
  {
    docs[..Min(ExcerptCount, |docs|)]
  }

  /** The `i`-th of the top results sits in the excerpt block at the
      offset where the join puts its `i`-th piece. */
  lemma {:induction false} ExcerptPiece(docs: seq<string>, i: nat)
    requires i < Min(ExcerptCount, |docs|)
    ensures var e := GetRelevantExcerpts(Success(docs));
      var at := PieceStart(ExcerptSeparator, Top(docs), i);
      at + |docs[i]| <= |e| && e[at..at + |docs[i]|] == docs[i]
  {
    var top := Top(docs);
    assert GetRelevantExcerpts(Success(docs)) == Join(ExcerptSeparator, top);
    JoinPiece(ExcerptSeparator, top, i);
    assert top[i] == docs[i];
  }

  /** The dashed separator follows every top result but the last. */
  lemma {:induction false} ExcerptSeparatorAfter(docs: seq<string>, i: nat)
    requires i + 1 < Min(ExcerptCount, |docs|)
    ensures var e := GetRelevantExcerpts(Success(docs));
      var end := PieceStart(ExcerptSeparator, Top(docs), i) + |docs[i]|;
      end + |ExcerptSeparator| <= |e| && e[end..end + |ExcerptSeparator|] == ExcerptSeparator
  {
    var top := Top(docs);
    assert GetRelevantExcerpts(Success(docs)) == Join(ExcerptSeparator, top);
    JoinSeparator(ExcerptSeparator, top, i);
    assert top[i] == docs[i];
  }

  /** The block ends with the last top result: nothing follows it. */
  lemma {:induction false} ExcerptsEnd(docs: seq<string>)
    requires |docs| > 0
    ensures var last := Min(ExcerptCount, |docs|) - 1;
      |GetRelevantExcerpts(Success(docs))| == PieceStart(ExcerptSeparator, Top(docs), last) + |docs[last]|
  {
    var top := Top(docs);
    assert GetRelevantExcerpts(Success(docs)) == Join(ExcerptSeparator, top);
    JoinLength(ExcerptSeparator, top);
  }

  /** The best match opens the excerpt block. */
  lemma {:induction false} ExcerptsStartWithBest(docs: seq<string>)
    requires |docs| > 0
    ensures var e := GetRelevantExcerpts(Success(docs));
      |docs[0]| <= |e| && e[..|docs[0]|] == docs[0]
  {
    ExcerptPiece(docs, 0);
  }

  /** Results past the third do not change the excerpts. */
  lemma {:induction false} ExcerptsIgnoreTail(docs: seq<string>, more: seq<string>)
    requires |docs| >= ExcerptCount
    ensures GetRelevantExcerpts(Success(docs + more)) == GetRelevantExcerpts(Success(docs))
  {
    assert (docs + more)[..ExcerptCount] == docs[..ExcerptCount];
  }

  /** The caller's `if relevant_excerpts:` test: the block is empty exactly
      when the search raised, found nothing, or found a single empty
      document (two or more documents always bring a separator). */
  lemma {:induction false} ExcerptsEmptyIff(search: Result<seq<string>, PyError>)
    ensures GetRelevantExcerpts(search) == "" <==>
      search.Failure? || |search.value| == 0 || (|search.value| >= 1 && Top(search.value) == [""])
  {
    if search.Success? && |search.value| > 0 {
      var top := Top(search.value);
      JoinLength(ExcerptSeparator, top);
      if |top| == 1 {
        assert Join(ExcerptSeparator, top) == top[0];
      } else {
        assert PieceStart(ExcerptSeparator, top, |top| - 1) >= |ExcerptSeparator| > 0;
      }
    }
  }

  // ---------------------------------------------------------------------
  // generate_response

  datatype Message = Message(role: string, content: string)

  /** The arguments of `chat.completions.create`. */
  datatype ChatRequest = ChatRequest(messages: seq<Message>, model: string)

  const UserPrefix: string := "User Question: "
  const ExcerptsHeading: string := "\n\nRelevant Excerpts:\n\n"

  function UserMessage(question: string, excerpts: string): string {
    UserPrefix + question + ExcerptsHeading + excerpts
  }

  /** The question and the excerpts can be read back out of the user
      message at fixed offsets. */
  lemma {:induction false} UserMessageParts(question: string, excerpts: string)
    ensures var m := UserMessage(question, excerpts);
      var q0 := |UserPrefix|;
      var e0 := q0 + |question| + |ExcerptsHeading|;
      && |m| == e0 + |excerpts|
      && m[..q0] == UserPrefix
      && m[q0..q0 + |question|] == question
      && m[q0 + |question|..e0] == ExcerptsHeading
      && m[e0..] == excerpts
  {
    var m := UserMessage(question, excerpts);
    var q0 := |UserPrefix|;
    var e0 := q0 + |question| + |ExcerptsHeading|;
    assert m == ((UserPrefix + question) + ExcerptsHeading) + excerpts;
    assert m[..e0] == (UserPrefix + question) + ExcerptsHeading;
    assert m[..q0 + |question|] == UserPrefix + question;
  }

  function BuildRequest(question: string, excerpts: string): (req: ChatRequest)
    ensures req.model == ModelName
    ensures req.messages == [Message("system", SystemPrompt), Message("user", UserMessage(question, excerpts))]
  {
    ChatRequest([Message("system", SystemPrompt), Message("user", UserMessage(question, excerpts))], ModelName)
  }

  /** `generate_response(groq_client, user_question, relevant_excerpts)`.
      `complete` stands for the completion call: the `message.content` of
      each returned choice, or the exception it raised.  Any exception,
      including indexing an empty choice list, gives the fallback text. */
  function GenerateResponse(complete: ChatRequest -> Result<seq<Option<string>>, PyError>,
                            question: string, excerpts: string): (answer: Option<string>)
    ensures var resp := complete(BuildRequest(question, excerpts));
      && (resp.Failure? || |resp.value| == 0 ==> answer == Some(Fallback))
      && (resp.Success? && |resp.value| > 0 ==> answer == resp.value[0])
  {
    var resp := complete(BuildRequest(question, excerpts));
    if resp.Failure? || |resp.value| == 0 then Some(Fallback)
    else resp.value[0]
  }
}
