/**
 * rag_service.py, the copy of the query service that app.py imports: initialisation of the
 * three module globals, the context formatter and get_rag_response. Building the models,
 * opening Chroma, retrieval and generation are the outside world: InitEnv says how each
 * initialisation step turns out, and the retriever and generator are parameters.
 */
module RagService {
  import opened Wrappers
  import opened Strings
  import opened RagCommon

  const EMBEDDING_MODEL_NAME: string := "sentence-transformers/all-MiniLM-L6-v2"

  /** The number of snippets retrieved per query. */
  const K: nat := 3

  const NO_CONTEXT: string :=
    "No relevant information " + "found in the knowledge base for this query."
  const STORE_UNAVAILABLE: string :=
    "Apologies, the knowledge base is currently unavailable. Please ensure ingestion.py was run successfully."
  const LLM_UNAVAILABLE: string :=
    "Apologies, the AI language model is currently unavailable. Please check backend configuration."
  const EMBEDDING_UNAVAILABLE: string :=
    "Apologies, a critical component for understanding your query is unavailable."
  const EMPTY_RESPONSE: string :=
    "Sorry, I received an unexpected empty response from the AI. Please try again."
  const RAG_ERROR: string :=
    "Sorry, I encountered an error while processing your request with the knowledge base."

  // ----- initialize_rag_components -----

  /** The embedding model after step 1: kept if present, otherwise built if building succeeds. */
  function InitEmbedding(h: Handles, env: InitEnv): Option<Embedding> {
    if h.embedding.Some? then h.embedding
    else if env.embeddingLoads then Some(Embedding(EMBEDDING_MODEL_NAME))
    else None
  }

  /**
   * One call of initialize_rag_components. A store is attempted only when none is held and an
   * embedding model is; a missing index directory returns at once, before the LLM step; the
   * LLM is attempted only when none is held, and a missing API key leaves it None.
   */
  function InitStep(h: Handles, env: InitEnv): (r: Handles)
    ensures h.embedding.Some? ==> r.embedding == h.embedding
    ensures h.store.Some? ==> r.store == h.store
    ensures h.llm.Some? ==> r.llm == h.llm
  {
    var emb := InitEmbedding(h, env);
    var tryStore := h.store.None? && emb.Some?;
    if tryStore && !env.storeDirExists then Handles(emb, None, h.llm)
    else
      var store :=
        if tryStore then (if env.storeLoads then Some(Store(CHROMA_COLLECTION_NAME, emb.value)) else None)
        else h.store;
      var llm :=
        if h.llm.Some? then h.llm
        else if HasApiKey(env) && env.llmLoads then Some(Llm(GEMINI_LLM_MODEL_NAME))
        else None;
      Handles(emb, store, llm)
  }

  /** Once every component is present, initialising again changes nothing. */
  lemma InitIdempotent(h: Handles, env: InitEnv)
    requires Ready(h)
    ensures InitStep(h, env) == h
  {
  }

  /** A newly opened store was opened with the embedding model held, from an existing directory. */
  lemma InitStoreNeedsEmbedding(h: Handles, env: InitEnv)
    ensures var r := InitStep(h, env);
      h.store.None? && r.store.Some? ==>
        r.embedding.Some? && r.store.value.embedding == r.embedding.value &&
        env.storeDirExists && env.storeLoads
    ensures h.store.None? && InitEmbedding(h, env).None? ==> InitStep(h, env).store.None?
  {
  }

  /** Initialisation keeps every store tied to the embedding model it was opened with. */
  lemma InitConsistent(h: Handles, env: InitEnv)
    requires Consistent(h)
    ensures Consistent(InitStep(h, env))
  {
  }

  /**
   * A missing index directory, when a store is attempted, returns early: the store stays None
   * and the LLM step does not run, so a missing LLM stays missing.
   */
  lemma InitMissingDirectoryAborts(h: Handles, env: InitEnv)
    requires h.store.None? && InitEmbedding(h, env).Some? && !env.storeDirExists
    ensures InitStep(h, env).store.None?
    ensures InitStep(h, env).llm == h.llm
  {
  }

  /** Without an API key no LLM is built; with one, it is built exactly when building succeeds. */
  lemma InitLlm(h: Handles, env: InitEnv)
    requires h.llm.None?
    requires !(h.store.None? && InitEmbedding(h, env).Some? && !env.storeDirExists)
    ensures InitStep(h, env).llm.Some? <==> HasApiKey(env) && env.llmLoads
  {
  }

  /** The three module globals, and the function that initialises them. */
  class Components {
    var embeddingModel: Option<Embedding>
    var vectorStore: Option<Store>
    var llmModelInstance: Option<Llm>

    function Current(): Handles
      reads this
    {
      Handles(embeddingModel, vectorStore, llmModelInstance)
    }

    /** Importing the module: the globals start as None and are initialised once (line 122). */
    constructor Import(env: InitEnv)
      ensures Current() == InitStep(NoHandles, env)
    {
      embeddingModel := None;
      vectorStore := None;
      llmModelInstance := None;
      new;
      Initialize(env);
    }

    /** initialize_rag_components. */
    method Initialize(env: InitEnv)
      modifies this
      ensures Current() == InitStep(old(Current()), env)
    {
      if embeddingModel.None? {
        if env.embeddingLoads {
          embeddingModel := Some(Embedding(EMBEDDING_MODEL_NAME));
        } else {
          embeddingModel := None;
        }
      }
      if vectorStore.None? && embeddingModel.Some? {
        if !env.storeDirExists {
          vectorStore := None;
          return;
        }
        if env.storeLoads {
          vectorStore := Some(Store(CHROMA_COLLECTION_NAME, embeddingModel.value));
        } else {
          vectorStore := None;
        }
      }
      if llmModelInstance.None? {
        if !HasApiKey(env) {
          llmModelInstance := None;
          return;
        }
        if env.llmLoads {
          llmModelInstance := Some(Llm(GEMINI_LLM_MODEL_NAME));
        } else {
          llmModelInstance := None;
        }
      }
    }

    /** get_rag_response on the current globals; calls records the outside calls made. */
    method GetRagResponse(userMessage: string, category: string, retrieve: Retriever, generate: Generator)
      returns (reply: string, ghost calls: seq<ServiceCall>)
      ensures reply == RagResponse(Current(), userMessage, category, retrieve, generate)
      ensures calls == RagCalls(Current(), userMessage, category, retrieve)
    {
      calls := [];
      if vectorStore.None? {
        return STORE_UNAVAILABLE, calls;
      }
      if llmModelInstance.None? {
        return LLM_UNAVAILABLE, calls;
      }
      if embeddingModel.None? {
        return EMBEDDING_UNAVAILABLE, calls;
      }
      calls := calls + [RetrieveCall(userMessage, K)];
      var retrieved := retrieve(userMessage, K);
      if retrieved.Raised? {
        return RAG_ERROR, calls;
      }
      var contextText := FormatDocsForPrompt(retrieved.value);
      var prompt := Prompt(contextText, category, userMessage);
      calls := calls + [GenerateCall(prompt)];
      var response := generate(prompt);
      if response.Raised? {
        return RAG_ERROR, calls;
      }
      var replyText := ExtractReply(response.value);
      reply := ResolveReply(replyText, response.value, EMPTY_RESPONSE);
    }
  }

  // ----- format_docs_for_prompt -----

  /** The context block of the prompt: this copy's sentinel when nothing was retrieved, and only then. */
  function FormatDocsForPrompt(docs: seq<Doc>): (r: string)
    ensures r == NO_CONTEXT <==> docs == []
  {
    assert NO_CONTEXT[0] == 'N';
    FormatDocsSentinelIff(docs, NO_CONTEXT);
    FormatDocs(docs, NO_CONTEXT)
  }

  // ----- get_rag_response -----

  /** The prompt sent for the documents retrieved: formatted context, category and question unchanged. */
  function PromptFor(docs: seq<Doc>, userMessage: string, category: string): Prompt {
    Prompt(FormatDocsForPrompt(docs), category, userMessage)
  }

  /** The message of the first guard that fails, in the order store, LLM, embedding model. */
  function GuardMessage(h: Handles): (r: Option<string>)
    ensures r.None? <==> Ready(h)
  {
    if h.store.None? then Some(STORE_UNAVAILABLE)
    else if h.llm.None? then Some(LLM_UNAVAILABLE)
    else if h.embedding.None? then Some(EMBEDDING_UNAVAILABLE)
    else None
  }

  /** The string get_rag_response returns: never empty, whatever the services do. */
  function RagResponse(h: Handles, userMessage: string, category: string, retrieve: Retriever, generate: Generator): (r: string)
    ensures r != ""
  {
    if GuardMessage(h).Some? then GuardMessage(h).value
    else match retrieve(userMessage, K)
      case Raised => RAG_ERROR
      case Value(docs) =>
        match generate(PromptFor(docs, userMessage, category))
        case Raised => RAG_ERROR
        case Value(response) => ResolveReply(ReplyText(response), response, EMPTY_RESPONSE)
  }

  /** The outside calls get_rag_response makes: none past a failed guard, at most one of each. */
  ghost function RagCalls(h: Handles, userMessage: string, category: string, retrieve: Retriever): (r: seq<ServiceCall>)
    ensures |r| <= 2
    ensures r != [] ==> r[0] == RetrieveCall(userMessage, K)
    ensures |r| == 2 ==> r[1].GenerateCall?
  {
    if GuardMessage(h).Some? then []
    else match retrieve(userMessage, K)
      case Raised => [RetrieveCall(userMessage, K)]
      case Value(docs) => [RetrieveCall(userMessage, K), GenerateCall(PromptFor(docs, userMessage, category))]
  }

  /**
   * The guards run in order (store, LLM, embedding model), each answering with its own message
   * and without any call to the retriever or the generator.
   */
  lemma GuardsAnswerWithoutCalls(h: Handles, userMessage: string, category: string, retrieve: Retriever, generate: Generator)
    ensures RagCalls(h, userMessage, category, retrieve) == [] <==> !Ready(h)
    ensures h.store.None? ==> RagResponse(h, userMessage, category, retrieve, generate) == STORE_UNAVAILABLE
    ensures h.store.Some? && h.llm.None? ==>
      RagResponse(h, userMessage, category, retrieve, generate) == LLM_UNAVAILABLE
    ensures h.store.Some? && h.llm.Some? && h.embedding.None? ==>
      RagResponse(h, userMessage, category, retrieve, generate) == EMBEDDING_UNAVAILABLE
  {
  }

  /** Retrieval asks for K = 3 snippets for the user's message, and generation sees the formatted context. */
  lemma CallsUseKAndContext(h: Handles, userMessage: string, category: string, retrieve: Retriever)
    ensures forall c :: c in RagCalls(h, userMessage, category, retrieve) && c.RetrieveCall? ==>
      c.query == userMessage && c.k == 3
    ensures forall c :: c in RagCalls(h, userMessage, category, retrieve) && c.GenerateCall? ==>
      retrieve(userMessage, K).Value? &&
      c.prompt == Prompt(FormatDocsForPrompt(retrieve(userMessage, K).value), category, userMessage)
  {
  }

  /**
   * With every component present, retrieval succeeding and a response arriving: a non-empty
   * extracted reply is returned unchanged; an empty one gives the blocked message when the
   * response was blocked and the empty-response message otherwise.
   */
  lemma RagResponseOfReply(h: Handles, userMessage: string, category: string, retrieve: Retriever, generate: Generator)
    requires Ready(h) && retrieve(userMessage, K).Value?
    requires generate(PromptFor(retrieve(userMessage, K).value, userMessage, category)).Value?
    ensures var response := generate(PromptFor(retrieve(userMessage, K).value, userMessage, category)).value;
      var r := RagResponse(h, userMessage, category, retrieve, generate);
      (ReplyText(response) != "" ==> r == ReplyText(response)) &&
      (ReplyText(response) == "" && Blocked(response) ==>
        r == BlockedReply(response.value.feedback.value.blockReasonMessage)) &&
      (ReplyText(response) == "" && !Blocked(response) ==> r == EMPTY_RESPONSE)
  {
  }

  /** Any exception from retrieval or generation gives the generic error message. */
  lemma RagResponseOnError(h: Handles, userMessage: string, category: string, retrieve: Retriever, generate: Generator)
    requires Ready(h)
    requires retrieve(userMessage, K).Raised? ||
      generate(PromptFor(retrieve(userMessage, K).value, userMessage, category)).Raised?
    ensures RagResponse(h, userMessage, category, retrieve, generate) == RAG_ERROR
  {
  }

  /** The states initialisation reaches from the module's start, after any number of calls. */
  ghost function InitMany(envs: seq<InitEnv>): Handles {
    if envs == [] then NoHandles else InitStep(InitMany(envs[..|envs| - 1]), envs[|envs| - 1])
  }

  lemma {:induction false} InitManyConsistent(envs: seq<InitEnv>)
    ensures Consistent(InitMany(envs))
  {
    if envs != [] {
      InitManyConsistent(envs[..|envs| - 1]);
      InitConsistent(InitMany(envs[..|envs| - 1]), envs[|envs| - 1]);
    }
  }

  /**
   * After any sequence of initialisations the embedding-model guard never fires: a store is
   * only ever opened with an embedding model, and that model is never dropped.
   */
  lemma EmbeddingGuardUnreachable(envs: seq<InitEnv>)
    ensures GuardMessage(InitMany(envs)) != Some(EMBEDDING_UNAVAILABLE)
  {
    InitManyConsistent(envs);
  }

  /** Every embedding model held after any sequence of initialisations is this copy's model. */
  lemma {:induction false} InitManyEmbedding(envs: seq<InitEnv>)
    ensures InitMany(envs).embedding.Some? ==> InitMany(envs).embedding.value.modelName == EMBEDDING_MODEL_NAME
  {
    if envs != [] {
      InitManyEmbedding(envs[..|envs| - 1]);
    }
  }
}
