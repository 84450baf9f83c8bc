/**
 * How the two copies of the query service, rag_service.py and backend/rag_service.py, agree
 * and differ, and how each relates to the index that ingestion.py builds.
 */
module ServiceComparison {
  import opened Wrappers
  import opened RagCommon
  import Ingestion
  import Root = RagService
  import Backend = BackendRagService

  /** Both copies format a non-empty retrieval identically; only the empty-context sentinels differ. */
  lemma FormattersAgreeExceptOnEmpty(docs: seq<Doc>)
    ensures docs != [] ==> Root.FormatDocsForPrompt(docs) == Backend.FormatDocsForPrompt(docs)
    ensures docs == [] ==> Root.FormatDocsForPrompt(docs) != Backend.FormatDocsForPrompt(docs)
  {
  }

  /** Both copies let a request through exactly when all three components are present. */
  lemma GuardsAgreeOnReadiness(h: Handles)
    ensures Root.GuardMessage(h).None? <==> Backend.GuardMessage(h).None?
  {
  }

  /**
   * With the embedding model loaded but no store, the two copies answer differently: the root
   * copy with its store message, the backend copy with its combined knowledge-base message.
   */
  lemma GuardMessagesDiffer(e: Embedding, l: Llm)
    ensures Root.GuardMessage(Handles(Some(e), None, Some(l))) == Some(Root.STORE_UNAVAILABLE)
    ensures Backend.GuardMessage(Handles(Some(e), None, Some(l))) == Some(Backend.KNOWLEDGE_BASE_UNAVAILABLE)
    ensures Root.STORE_UNAVAILABLE != Backend.KNOWLEDGE_BASE_UNAVAILABLE
  {
  }

  /**
   * A missing index directory on the first initialisation: the root copy returns before the
   * LLM step and leaves the LLM None; the backend copy goes on and builds it.
   */
  lemma MissingDirectoryDiverges(env: InitEnv)
    requires env.embeddingLoads && !env.storeDirExists && HasApiKey(env) && env.llmLoads
    ensures Root.InitStep(NoHandles, env).llm.None?
    ensures Backend.InitStep(NoHandles, env).llm.Some?
    ensures Root.InitStep(NoHandles, env).store.None? && Backend.InitStep(NoHandles, env).store.None?
  {
  }

  /** The root copy retrieves 3 snippets per query, the backend copy 10. */
  lemma RetrievalSizesDiffer(h: Handles, userMessage: string, category: string, retrieve: Retriever)
    requires Ready(h)
    ensures Root.RagCalls(h, userMessage, category, retrieve)[0] == RetrieveCall(userMessage, 3)
    ensures Backend.RagCalls(h, userMessage, category, retrieve)[0] == RetrieveCall(userMessage, 10)
  {
  }

  /**
   * After any sequence of initialisations, a store the root copy holds queries with the
   * embedding model ingestion indexed with; a store the backend copy holds queries with a
   * different one (mpnet against MiniLM).
   */
  lemma EmbeddingModelsAgainstIngestion(envs: seq<InitEnv>)
    ensures Root.InitMany(envs).store.Some? ==>
      Root.InitMany(envs).store.value.embedding.modelName == Ingestion.EMBEDDING_MODEL_NAME
    ensures Backend.InitMany(envs).store.Some? ==>
      Backend.InitMany(envs).store.value.embedding.modelName != Ingestion.EMBEDDING_MODEL_NAME
  {
    Root.InitManyConsistent(envs);
    Root.InitManyEmbedding(envs);
    Backend.InitManyConsistent(envs);
    Backend.InitManyEmbedding(envs);
  }
}
