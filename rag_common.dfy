/**
 * What the two copies of the query service (rag_service.py and backend/rag_service.py) share:
 * the three component handles and the environment their initialisation runs in, retrieved
 * documents and their snippet formatting, the generated-response shape, reply extraction
 * (text, else the parts' texts) and the blocked-response message. Where the copies differ
 * (messages, k, the empty-context sentinel) they pass their own constants in.
 */
module RagCommon {
  import opened Wrappers
  import opened Strings

  const CHROMA_COLLECTION_NAME: string := "joradp_documents"
  const GEMINI_LLM_MODEL_NAME: string := "gemini-2.0-flash"

  // ----- Components and the initialisation environment -----

  /** A HuggingFace embedding model, by model name. */
  datatype Embedding = Embedding(modelName: string)

  /** A Chroma collection opened with the embedding function it was given. */
  datatype Store = Store(collection: string, embedding: Embedding)

  /** A configured Gemini model. */
  datatype Llm = Llm(modelName: string)

  /** The three module globals embedding_model, vector_store and llm_model_instance. */
  datatype Handles = Handles(embedding: Option<Embedding>, store: Option<Store>, llm: Option<Llm>)

  /** The globals as the module defines them, before any initialisation. */
  const NoHandles: Handles := Handles(None, None, None)

  /**
   * What the outside world does during one initialisation: whether building the embedding
   * model succeeds, whether the index directory exists, whether opening Chroma succeeds, the
   * GEMINI_API_KEY environment variable, and whether building the Gemini model succeeds.
   */
  datatype InitEnv = InitEnv(
    embeddingLoads: bool,
    storeDirExists: bool,
    storeLoads: bool,
    apiKey: Option<string>,
    llmLoads: bool)

  /** Python's truthiness of a value that is None or a string. */
  predicate Truthy(s: Option<string>) {
    s.Some? && s.value != ""
  }

  /** `if not GEMINI_API_KEY` fails: the key is set and non-empty. */
  predicate HasApiKey(env: InitEnv) {
    Truthy(env.apiKey)
  }

  /** Every store held was opened with the embedding model held. */
  predicate Consistent(h: Handles) {
    h.store.Some? ==> h.embedding == Some(h.store.value.embedding)
  }

  /** All three components are present, so the guards of get_rag_response all pass. */
  predicate Ready(h: Handles) {
    h.embedding.Some? && h.store.Some? && h.llm.Some?
  }

  // ----- Retrieved documents and their formatting -----

  /** A metadata value as ingestion writes it: a string (source, category) or an int (chunk_num). */
  datatype MetaValue = MStr(str: string) | MInt(num: int)

  /** A LangChain Document returned by the retriever. */
  datatype Doc = Doc(pageContent: string, metadata: map<string, MetaValue>)

  /** How an f-string renders a metadata value. */
  function MetaText(v: MetaValue): string {
    match v
    case MStr(s) => s
    case MInt(n) => IntToString(n)
  }

  /** doc.metadata.get(key, 'N/A'), rendered: the stored value as an f-string shows it, or "N/A". */
  function MetaOrNA(d: Doc, key: string): (r: string)
    ensures key in d.metadata ==> r == MetaText(d.metadata[key])
    ensures key !in d.metadata ==> r == "N/A"
  {
    if key in d.metadata then MetaText(d.metadata[key]) else "N/A"
  }

  const SNIPPET_PREFIX: string := "--- Context Snippet from JORADP (Source: "

  /** The header line of one snippet, without its newline. */
  function SnippetHeader(d: Doc): string {
    SNIPPET_PREFIX + MetaOrNA(d, "source") + ", Chunk: " + MetaOrNA(d, "chunk_num") + ") ---"
  }

  /** One context block: the header, a newline, then the page content. */
  function Snippet(d: Doc): string {
    SnippetHeader(d) + "\n" + d.pageContent
  }

  /** The comprehension over the retrieved documents, one block per document in order. */
  function Snippets(docs: seq<Doc>): (r: seq<string>)
    ensures |r| == |docs|
    ensures forall i :: 0 <= i < |docs| ==> r[i] == Snippet(docs[i])
  {
    if docs == [] then [] else [Snippet(docs[0])] + Snippets(docs[1..])
  }

  /**
   * format_docs_for_prompt with the copy's own sentinel for an empty retrieval: the blocks
   * joined with a blank line between them.
   */
  function FormatDocs(docs: seq<Doc>, sentinel: string): string {
    if docs == [] then sentinel else Join(Snippets(docs), "\n\n")
  }

  /** The formatted context is the sentinel exactly when nothing was retrieved. */
  lemma FormatDocsSentinelIff(docs: seq<Doc>, sentinel: string)
    requires sentinel == [] || sentinel[0] != '-'
    ensures FormatDocs(docs, sentinel) == sentinel <==> docs == []
  {
    if docs != [] {
      assert SNIPPET_PREFIX[0] == '-';
      var parts := Snippets(docs);
      JoinFirst(parts, "\n\n");
      assert SNIPPET_PREFIX <= parts[0];
    }
  }

  /** Formatting distributes over concatenation: blocks keep their order. */
  lemma {:induction false} FormatDocsConcat(a: seq<Doc>, b: seq<Doc>, sentinel: string)
    requires a != [] && b != []
    ensures FormatDocs(a + b, sentinel) == FormatDocs(a, sentinel) + "\n\n" + FormatDocs(b, sentinel)
  {
    SnippetsConcat(a, b);
    JoinConcat(Snippets(a), Snippets(b), "\n\n");
  }

  lemma SnippetsConcat(a: seq<Doc>, b: seq<Doc>)
    ensures Snippets(a + b) == Snippets(a) + Snippets(b)
  {
    assert forall i :: 0 <= i < |a| ==> (a + b)[i] == a[i];
    assert forall i :: 0 <= i < |b| ==> (a + b)[|a| + i] == b[i];
  }

  /** Every retrieved document's block, and so its page content, reaches the context. */
  lemma FormatDocsContainsEach(docs: seq<Doc>, sentinel: string, i: nat)
    requires i < |docs|
    ensures Contains(FormatDocs(docs, sentinel), Snippet(docs[i]))
    ensures Contains(FormatDocs(docs, sentinel), docs[i].pageContent)
  {
    JoinContains(Snippets(docs), "\n\n", i);
    ContainsParts(SnippetHeader(docs[i]), "\n", docs[i].pageContent);
    ContainsTrans(FormatDocs(docs, sentinel), Snippet(docs[i]), docs[i].pageContent);
  }

  /** A document without source or chunk_num metadata is labelled N/A for both. */
  lemma SnippetWithoutMetadata(content: string)
    ensures Snippet(Doc(content, map[])) ==
      "--- Context Snippet from JORADP (Source: N/A, Chunk: N/A) ---\n" + content
  {
  }

  // ----- The generation call and its response -----

  /** template.format(context=..., category=..., question=...): the three substituted values. */
  datatype Prompt = Prompt(context: string, category: string, question: string)

  /** A response part; None stands for a part without a text attribute or with text None. */
  datatype Part = Part(text: Option<string>)

  /** response.prompt_feedback: block_reason is an enum whose 0 (unspecified) is falsy. */
  datatype Feedback = Feedback(blockReason: nat, blockReasonMessage: Option<string>)

  /** A Gemini GenerateContentResponse: its text, its parts and its prompt feedback. */
  datatype GenResponse = GenResponse(text: Option<string>, parts: seq<Part>, feedback: Option<Feedback>)

  /** The calls a request makes to the outside world, in order. */
  datatype ServiceCall = RetrieveCall(query: string, k: nat) | GenerateCall(prompt: Prompt)

  /** retriever.invoke(query) on a retriever built with search_kwargs {"k": k}. */
  type Retriever = (string, nat) -> Outcome<seq<Doc>>

  /** llm_model_instance.generate_content(prompt); None is a falsy response. */
  type Generator = Prompt -> Outcome<Option<GenResponse>>

  /** What one part adds to the reply. */
  function PartText(p: Part): string {
    if Truthy(p.text) then p.text.value else ""
  }

  /** reply_text after the loop over parts has run over all of parts, in order. */
  function PartsText(parts: seq<Part>): string {
    if parts == [] then "" else PartsText(parts[..|parts| - 1]) + PartText(parts[|parts| - 1])
  }

  /** Reference definition: the non-empty part texts, in order. */
  function TruthyTexts(parts: seq<Part>): (r: seq<string>)
    ensures forall j :: 0 <= j < |r| ==> r[j] != ""
  {
    if parts == [] then []
    else (if Truthy(parts[0].text) then [parts[0].text.value] else []) + TruthyTexts(parts[1..])
  }

  /** The concatenation of a list of strings. */
  function Concat(ss: seq<string>): string {
    if ss == [] then "" else ss[0] + Concat(ss[1..])
  }

  lemma {:induction false} ConcatAppend(ss: seq<string>, t: seq<string>)
    ensures Concat(ss + t) == Concat(ss) + Concat(t)
  {
    if ss == [] {
      assert ss + t == t;
    } else {
      assert (ss + t)[1..] == ss[1..] + t;
      ConcatAppend(ss[1..], t);
    }
  }

  lemma {:induction false} TruthyTextsAppend(parts: seq<Part>, p: Part)
    ensures TruthyTexts(parts + [p]) == TruthyTexts(parts) + TruthyTexts([p])
  {
    if parts != [] {
      assert (parts + [p])[1..] == parts[1..] + [p];
      TruthyTextsAppend(parts[1..], p);
    } else {
      assert parts + [p] == [p];
    }
  }

  /** The loop's result is the in-order concatenation of the non-empty part texts. */
  lemma {:induction false} PartsTextIsConcat(parts: seq<Part>)
    ensures PartsText(parts) == Concat(TruthyTexts(parts))
  {
    if parts != [] {
      var init, last := parts[..|parts| - 1], parts[|parts| - 1];
      assert parts == init + [last];
      PartsTextIsConcat(init);
      TruthyTextsAppend(init, last);
      ConcatAppend(TruthyTexts(init), TruthyTexts([last]));
      assert [last][1..] == [];
    }
  }

  /** The parts contribute nothing exactly when no part has a non-empty text. */
  lemma {:induction false} PartsTextEmptyIff(parts: seq<Part>)
    ensures PartsText(parts) == "" <==> forall j :: 0 <= j < |parts| ==> !Truthy(parts[j].text)
  {
    if parts != [] {
      var init := parts[..|parts| - 1];
      PartsTextEmptyIff(init);
      assert forall j :: 0 <= j < |init| ==> init[j] == parts[j];
    }
  }

  /**
   * The reply before the fallbacks: response.text when present and non-empty, otherwise the
   * parts' texts when there are parts, otherwise "".
   */
  function ReplyText(response: Option<GenResponse>): string {
    if response.Some? && Truthy(response.value.text) then response.value.text.value
    else if response.Some? && response.value.parts != [] then PartsText(response.value.parts)
    else ""
  }

  /** The reply is empty exactly when the response has neither a text nor a part with text. */
  lemma ReplyTextEmptyIff(response: Option<GenResponse>)
    ensures ReplyText(response) == "" <==>
      (response.None? ||
       (!Truthy(response.value.text) &&
        forall j :: 0 <= j < |response.value.parts| ==> !Truthy(response.value.parts[j].text)))
  {
    if response.Some? {
      PartsTextEmptyIff(response.value.parts);
    }
  }

  /** The reply-extraction code: response.text if it is non-empty, else `reply_text +=` over the parts. */
  method ExtractReply(response: Option<GenResponse>) returns (reply: string)
    ensures reply == ReplyText(response)
  {
    reply := "";
    if response.Some? && Truthy(response.value.text) {
      reply := response.value.text.value;
    } else if response.Some? && response.value.parts != [] {
      var parts := response.value.parts;
      var i := 0;
      while i < |parts|
        invariant 0 <= i <= |parts|
        invariant reply == PartsText(parts[..i])
      {
        if Truthy(parts[i].text) {
          reply := reply + parts[i].text.value;
        }
        assert parts[..i + 1][..i] == parts[..i];
        i := i + 1;
      }
      assert parts[..|parts|] == parts;
    }
  }

  // ----- Fallbacks -----

  const BLOCKED_DEFAULT: string := "Content blocked by safety filters."

  /** The response was blocked: it has prompt feedback with a truthy block reason. */
  predicate Blocked(response: Option<GenResponse>) {
    response.Some? && response.value.feedback.Some? && response.value.feedback.value.blockReason != 0
  }

  /** The blocked-response message, with the block reason message or the default in the middle. */
  function BlockedReply(message: Option<string>): (r: string)
    ensures Truthy(message) ==> Contains(r, message.value)
    ensures !Truthy(message) ==> Contains(r, BLOCKED_DEFAULT)
  {
    var reason := if Truthy(message) then message.value else BLOCKED_DEFAULT;
    ContainsParts("Sorry, I couldn't generate a response for that request. ", reason,
      " Please try rephrasing your question.");
    "Sorry, I couldn't generate a response for that request. " + reason + " Please try rephrasing your question."
  }

  /**
   * What get_rag_response returns once a response arrived and the reply was extracted: the
   * reply itself, or the blocked message, or the copy's own empty-response message. With a
   * non-empty empty-response message the answer is never the empty string.
   */
  function ResolveReply(reply: string, response: Option<GenResponse>, emptyMessage: string): (r: string)
    ensures reply != "" ==> r == reply
    ensures reply == "" && Blocked(response) ==>
      r == BlockedReply(response.value.feedback.value.blockReasonMessage)
    ensures reply == "" && !Blocked(response) ==> r == emptyMessage
    ensures emptyMessage != "" ==> r != ""
  {
    if reply == "" && Blocked(response) then BlockedReply(response.value.feedback.value.blockReasonMessage)
    else if reply == "" then emptyMessage
    else reply
  }
}
