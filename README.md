# Mezan chat backend: a Dafny model

Mezan is a chat assistant for Algerian law. It answers questions from a vector index built
over the PDF issues of the official journal (JORADP). This project models and proves
properties of its deterministic core:

- **Ingestion** (`ingestion.py`, module `Ingestion`). PDF text extraction over abstract pages.
  The text cleaner. The chunker's empty-input guard. The per-file ingestion loop, which runs
  over a vector store held as a sequence of (text, {source, chunk_num, category}) records and
  skips a file whose source name is already stored.
- **The query service**, in its two copies: `rag_service.py` (module `RagService`, the copy
  `app.py` imports) and `backend/rag_service.py` (module `BackendRagService`). Each copy has
  the same three parts:
  - initialisation of the three globals (embedding model, vector store, LLM), as a class whose
    `Initialize` follows a pure transition function `InitStep`;
  - the context formatter;
  - `get_rag_response`: guards, retrieval, prompt, generation, reply extraction from the text
    or the parts, and the blocked / empty / exception fallbacks.

  What the copies share is in `RagCommon`. How the copies differ is proved in
  `ServiceComparison`: guard messages, retrieval size k, the empty-context sentinel, whether a
  missing index directory aborts initialisation, and the embedding model.
- **The Flask app** (`app.py`, module `App`). `home`, and the validation and dispatch in
  `chat_endpoint`, over a JSON value type. Start-up initialises the root service twice.
- **The search page** (`frontend/js/search-ar.js`, module `SearchAr`). The fixed document
  table, the three-way filter, and result rendering into the results container.
- **The navigation script** (`frontend/js/nav-script.js`, module `NavScript`). Current-page
  derivation, active-link marking over an array of links in place, and the menu
  toggle / close state machine.

Modules `Wrappers` (Option, Outcome) and `Strings` supply the string operations used:
Python's `strip`, `split`, `join` and `replace`, and JavaScript's `split`, `includes`
and `toLowerCase`.

The outside world is passed in:

| Component | How it is modelled |
|---|---|
| PyPDF2 | a file is `Missing`, `Unreadable`, or a sequence of pages, each of which gives an optional text or raises |
| The text splitter | a function parameter |
| The store's existence query and `add_texts` | per-file flags that say whether each raises |
| Retrieval and generation | function parameters returning a value or `Raised` |
| Model building, the index directory and `GEMINI_API_KEY` | an `InitEnv` per initialisation |

A ghost `calls` out-parameter of `GetRagResponse` records the outside calls a request makes,
so the model can state that a failed guard makes none and that retrieval asks for k snippets.

Three behaviours of the code are easy to misread; the model follows what the code does:

- **Cleaning.** The comments at ingestion.py:65-66 say "Replace multiple newlines" and
  "Replace multiple spaces", but `clean_text` calls `str.replace` with the literal strings
  `"\n\n+"` and `"  +"`, so nothing is collapsed unless that literal text occurs. The model
  replaces literally. `CleanTextKeepsDoubleSpace` and `CleanTextNotIdempotent` show the
  consequences.
- **Page failures.** In `extract_text_from_pdf` an exception from any page ends the whole
  extraction with `""` (ingestion.py:57-60). Only a page without text is skipped, with a warning.
- **An absent index.** `get_rag_response` never queries a missing store: its first guard
  answers with a fixed message before any retrieval (rag_service.py:146-154).

## Model

| member | source | states |
|---|---|---|
| Ingestion.PdfText | ingestion.py:35-60 | a missing or unreadable file, or any page that raises, gives ""; otherwise the result is the concatenation, in page order, of each truthy page text followed by "\n", stripped once as a whole |
| Ingestion.ExtractTextFromPdf | ingestion.py:37-53 | the loop over pages returns exactly PdfText of the file |
| Ingestion.AccumulatedIsTerminated | ingestion.py:44-50 | the loop's running text is the reference concatenation of the truthy page texts, each followed by a newline |
| Ingestion.PageWithoutTextContributesNothing | ingestion.py:47-50 | removing a page without text leaves the extracted text unchanged |
| Ingestion.CleanText | ingestion.py:63-69 | the output has no leading or trailing whitespace; no '\n'-separated line of it begins or ends with whitespace; it is never longer than the input |
| Ingestion.CleanTextWithoutPatterns | ingestion.py:65-67 | when neither literal pattern occurs, cleaning is: split on '\n', strip each line, join with '\n', strip the whole |
| Ingestion.CleanTextKeepsCleanLine | ingestion.py:65-67 | a single stripped line without the literal "  +" is returned unchanged, inner runs of spaces included |
| Ingestion.CleanTextKeepsDoubleSpace | ingestion.py:66 | "a  b" is unchanged: the replacement matches only the literal "  +" |
| Ingestion.CleanTextThreeLines | ingestion.py:67 | three lines without either pattern clean to the strip of the three stripped lines joined with '\n' |
| Ingestion.CleanTextPatternAtEnd | ingestion.py:65-67 | a stripped line followed by the literal "\n\n+" cleans to the line itself |
| Ingestion.CleanTextBlankMiddleLine | ingestion.py:67 | a whitespace-only line between two stripped lines becomes empty, which leaves two adjacent newlines |
| Ingestion.NoPatternsBeforeBlankLine | ingestion.py:65-66 | a line followed by "\n \n+" contains neither literal pattern when the line contains neither |
| Ingestion.CleanTextTwice | ingestion.py:63-69 | a line followed by "\n \n+" cleans to the line + "\n\n+", and a second cleaning gives the line alone |
| Ingestion.CleanTextNotIdempotent | ingestion.py:63-69 | some text changes again on a second cleaning pass |
| Ingestion.ChunkTextRecursive | ingestion.py:71-86 | empty text gives no chunks (any other text goes to the splitter) |
| Ingestion.ChunkMetadatas | ingestion.py:198 | one metadata entry per chunk; entry i is {source: filename, chunk_num: i, category: "General JORADP"} |
| Ingestion.ChunkRecords | ingestion.py:198-207 | record i holds chunk i with metadata {source: filename, chunk_num: i, category: "General JORADP"}, one record per chunk |
| Ingestion.IngestFile | ingestion.py:155-214 | one turn of the loop only appends to the store |
| Ingestion.IngestFileAdds | ingestion.py:161-214 | a skipped file leaves the store unchanged; any other file appends exactly the records it produces; added records are the file's chunks in order, numbered from 0, with the file's name and the default category; after an addition the file is found by the existence query |
| Ingestion.IngestFileCovers | ingestion.py:161-214 | after one turn the file is found by the existence query, or processing it would add nothing |
| Ingestion.ReprocessedWhenCheckRaises | ingestion.py:161-171 | when the existence query raises, a file already stored is processed again and its records are appended a second time |
| Ingestion.IngestAllRepeatsWhenCheckRaises | ingestion.py:161-171 | with an existence query that raises, a second run over a file that yields records makes the store longer again, so re-running is safe only while the query answers |
| Ingestion.IngestAll | ingestion.py:155-214 | the loop over the files only appends: every stored record is kept, unchanged and in place |
| Ingestion.IngestAllCovers | ingestion.py:155-214 | after a run, each file is found by the existence query or would add nothing |
| Ingestion.IngestAllStable | ingestion.py:161-165 | a run over files that are all found, or that add nothing, with no failing existence query, changes nothing |
| Ingestion.IngestAllIdempotent | ingestion.py:161-165 | running the pipeline twice over the same files adds nothing the second time, as long as the existence query does not raise; each file's add_texts outcome is taken to be the same on both runs |
| Ingestion.RetriedAfterFailedAdd | ingestion.py:161-214 | a file whose add_texts raised is not stored by that run, so a later run processes it again and, when add_texts then succeeds, appends all of its chunk records |
| Ingestion.VectorStore.constructor | ingestion.py:143 | the store starts with the given records |
| Ingestion.VectorStore.AddTexts | ingestion.py:207 | appends one record per text with its metadata, in order |
| Ingestion.VectorStore.IngestOne | ingestion.py:156-214 | the store after one file is IngestFile of the store before |
| Ingestion.VectorStore.RunIngestionPipeline | ingestion.py:143-214 | the store after the loop is IngestAll of the store before |
| Strings.StripSpec | ingestion.py:53 | strip gives the piece of the input that neither begins nor ends with whitespace, with only whitespace outside it |
| Strings.Split | ingestion.py:67 | split always gives at least one piece, and no piece holds the separator |
| Strings.JoinSplit | ingestion.py:67 | joining the pieces of a split with the separator gives back the input |
| Strings.SplitJoin | ingestion.py:67 | splitting a join of separator-free pieces gives back the pieces |
| Strings.SplitLastSuffix | frontend/js/nav-script.js:45 | the last piece of a split, which `pop()` returns, is exactly what follows the last separator, or the whole string when there is none: it equals AfterLast, read from the end |
| Strings.SplitLastIsAfterLast | frontend/js/nav-script.js:45 | the last piece of a split taken from the front is the part after the last separator taken from the end (AfterLast) |
| Strings.Replace | ingestion.py:65-66 | a literal replacement with a text no longer than the pattern never lengthens the input |
| Strings.ReplaceAbsent | ingestion.py:65-66 | replacing a pattern that does not occur changes nothing |
| Strings.StripEach | ingestion.py:67 | the comprehension strips each line, one result per line |
| RagCommon.MetaOrNA | rag_service.py:131 | a present metadata key renders as its value (an int in decimal); an absent one as "N/A" |
| RagCommon.Snippets | rag_service.py:131 | one block per retrieved document, in order |
| RagCommon.FormatDocsSentinelIff | rag_service.py:127-131 | the formatted context equals the sentinel exactly when nothing was retrieved |
| RagCommon.FormatDocsConcat | rag_service.py:131 | the blocks of two retrievals are joined with "\n\n", in order |
| RagCommon.FormatDocsContainsEach | rag_service.py:131 | every retrieved document's block, and so its page content, appears in the context |
| RagCommon.SnippetWithoutMetadata | rag_service.py:131 | a document without source or chunk_num gets the header with "N/A" for both |
| RagCommon.TruthyTexts | rag_service.py:233-235 | the reference list of the parts' texts contains no empty string |
| RagCommon.PartsTextIsConcat | rag_service.py:232-235 | the loop over parts gives the in-order concatenation of the non-empty part texts |
| RagCommon.PartsTextEmptyIff | rag_service.py:232-235 | the parts give "" exactly when no part has a non-empty text |
| RagCommon.ReplyTextEmptyIff | rag_service.py:229-235 | the extracted reply is "" exactly when there is no response, or it has neither a text nor a part with text |
| RagCommon.ExtractReply | rag_service.py:229-235 | the extraction code, with its loop over parts, returns ReplyText of the response |
| RagCommon.BlockedReply | rag_service.py:237-241 | the blocked message contains the block reason message, or "Content blocked by safety filters." when that is falsy |
| RagCommon.ResolveReply | rag_service.py:237-250 | with a non-empty empty-response message the answer is never ""; a non-empty reply is returned as it is, and an empty one gives the blocked message when the response was blocked and the copy's empty-response message otherwise |
| RagService.InitStep | rag_service.py:47-118 | one initialisation never rebuilds or drops a component already present |
| RagService.InitIdempotent | rag_service.py:52-91 | once all three components are present, initialising again changes nothing |
| RagService.InitStoreNeedsEmbedding | rag_service.py:67-87 | a store is opened only when an embedding model is held and the directory exists, and it is opened with that model; without an embedding model no store is opened |
| RagService.InitConsistent | rag_service.py:67-87 | every store stays tied to the embedding model held |
| RagService.InitMissingDirectoryAborts | rag_service.py:69-72 | a missing index directory leaves the store None and returns before the LLM step |
| RagService.InitLlm | rag_service.py:91-118 | when the LLM step runs, no API key means no LLM; with a key, the LLM is built exactly when building succeeds |
| RagService.Components.Import | rag_service.py:122 | importing the module initialises the three None globals once |
| RagService.Components.Initialize | rag_service.py:47-118 | initialize_rag_components updates the globals as InitStep says |
| RagService.Components.GetRagResponse | rag_service.py:134-256 | get_rag_response returns RagResponse of the current globals and makes exactly the calls RagCalls lists |
| RagService.FormatDocsForPrompt | rag_service.py:125-131 | the context is "No relevant information found in the knowledge base for this query." exactly when nothing was retrieved |
| RagService.GuardMessage | rag_service.py:146-154 | a guard fires exactly when some component is missing |
| RagService.GuardsAnswerWithoutCalls | rag_service.py:146-154 | the guards run in the order store, LLM, embedding model, each with its own message, and no outside call is made exactly when one fires |
| RagService.CallsUseKAndContext | rag_service.py:162-226 | retrieval asks for 3 snippets for the user's message; generation gets the formatted context, the category and the question unchanged |
| RagService.RagResponse | rag_service.py:134-256 | every request gets a non-empty answer |
| RagService.RagCalls | rag_service.py:162-226 | a request makes at most two outside calls; the first, if any, is the retrieval of K snippets for the message, and a second is a generation |
| RagService.RagResponseOfReply | rag_service.py:229-250 | with a response, a non-empty extracted reply is returned; an empty one gives the blocked message or "Sorry, I received an unexpected empty response from the AI. Please try again." |
| RagService.RagResponseOnError | rag_service.py:252-256 | an exception from retrieval or generation gives the generic knowledge-base error message |
| RagService.InitManyConsistent | rag_service.py:47-122 | after any sequence of initialisations, every store is tied to the embedding model held |
| RagService.EmbeddingGuardUnreachable | rag_service.py:152-154 | after any sequence of initialisations, the embedding-model guard never fires |
| RagService.InitManyEmbedding | rag_service.py:32-62 | every embedding model held is MiniLM |
| BackendRagService.InitStep | backend/rag_service.py:43-116 | one initialisation never rebuilds or drops a component already present |
| BackendRagService.InitIdempotent | backend/rag_service.py:48-88 | once all three components are present, initialising again changes nothing |
| BackendRagService.InitStoreNeedsEmbedding | backend/rag_service.py:64-84 | a store is opened only when an embedding model is held and the directory exists, and it is opened with that model |
| BackendRagService.InitConsistent | backend/rag_service.py:64-84 | every store stays tied to the embedding model held |
| BackendRagService.InitLlm | backend/rag_service.py:66-116 | a missing directory leaves the store None without aborting; the LLM is built exactly when the API key is set and building succeeds |
| BackendRagService.Components.Import | backend/rag_service.py:120 | importing the module initialises the three None globals once |
| BackendRagService.Components.Initialize | backend/rag_service.py:43-116 | initialize_rag_components updates the globals as InitStep says |
| BackendRagService.Components.GetRagResponse | backend/rag_service.py:133-258 | get_rag_response returns RagResponse of the current globals and makes exactly the calls RagCalls lists |
| BackendRagService.FormatDocsForPrompt | backend/rag_service.py:123-130 | the context is "No relevant context snippets were retrieved." exactly when nothing was retrieved |
| BackendRagService.GuardMessage | backend/rag_service.py:145-153 | a guard fires exactly when some component is missing |
| BackendRagService.GuardsAnswerWithoutCalls | backend/rag_service.py:145-153 | a missing store or embedding model gives the knowledge-base message, checked before the LLM guard; no outside call is made exactly when a guard fires |
| BackendRagService.CallsUseKAndContext | backend/rag_service.py:162-227 | retrieval asks for 10 snippets for the user's message; generation gets the formatted context, the category and the question unchanged |
| BackendRagService.RagResponse | backend/rag_service.py:133-258 | every request gets a non-empty answer |
| BackendRagService.RagCalls | backend/rag_service.py:162-227 | a request makes at most two outside calls; the first, if any, is the retrieval of K snippets for the message, and a second is a generation |
| BackendRagService.RagResponseOfReply | backend/rag_service.py:230-252 | with a response, a non-empty extracted reply is returned; an empty one gives the blocked message or this copy's "Apologies, I couldn't generate a meaningful response ..." message |
| BackendRagService.RagResponseOnError | backend/rag_service.py:254-258 | an exception from retrieval or generation gives the generic knowledge-base error message |
| BackendRagService.InitManyConsistent | backend/rag_service.py:43-120 | after any sequence of initialisations, every store is tied to the embedding model held |
| BackendRagService.InitManyEmbedding | backend/rag_service.py:28-60 | every embedding model held is mpnet |
| ServiceComparison.FormattersAgreeExceptOnEmpty | backend/rag_service.py:125-130 | the two copies format a non-empty retrieval identically and differ on an empty one |
| ServiceComparison.GuardsAgreeOnReadiness | backend/rag_service.py:145-153 | both copies let a request through exactly when all three components are present |
| ServiceComparison.GuardMessagesDiffer | rag_service.py:146-148 | with the embedding model but no store, the copies answer with different messages |
| ServiceComparison.MissingDirectoryDiverges | backend/rag_service.py:66-70 | a missing directory at the first initialisation leaves the root copy without an LLM, while the backend copy builds one |
| ServiceComparison.RetrievalSizesDiffer | backend/rag_service.py:162 | the root copy retrieves 3 snippets and the backend copy 10 |
| ServiceComparison.EmbeddingModelsAgainstIngestion | backend/rag_service.py:28 | the root copy's store queries with the model ingestion indexes with; the backend copy's store never does |
| App.Home | app.py:28-31 | GET / answers 200 with "Mezan Backend is running!" |
| App.ChatEndpoint | app.py:33-77 | the chat endpoint answers only 200, 400 or 500, always with a JSON body, and with a reply exactly when the status is 200 |
| App.ChatOkIffValid | app.py:46-69 | 200 exactly when the body is an object whose message and category are non-empty strings; the reply is get_rag_response of both, unchanged |
| App.ChatRequiredFirst | app.py:51-53 | a falsy or absent message or category gives 400 "required", whatever its type |
| App.ChatZeroMessageIsMissing | app.py:51-56 | a message of 0 is reported as missing, not as mistyped |
| App.ChatMistyped | app.py:54-56 | a truthy message and category of which one is not a string give 400 "must be strings" |
| App.ChatNotObject | app.py:44-77 | a body that is not JSON, or JSON that is not an object, gives 500 |
| App.ChatReplyNonEmpty | app.py:64-69 | through the root query service, an accepted request always gets a non-empty reply |
| App.Start | app.py:8-25 | start-up initialises the root copy once at import and once after .env is loaded |
| App.SecondInitialisationBuildsLlm | app.py:13-25 | the second initialisation builds the LLM when the key is set by then, building succeeds and the directory exists |
| SearchAr.Filter | frontend/js/search-ar.js:88-93 | the filter never gives more documents than it was given |
| SearchAr.FilterIsSubsequence | frontend/js/search-ar.js:88-93 | the filtered list is a subsequence of the documents, in table order |
| SearchAr.FilterMembership | frontend/js/search-ar.js:89-92 | a document is kept exactly when it is in the table and passes the category, year and search filters |
| SearchAr.FilterAllPass | frontend/js/search-ar.js:88-93 | when every document passes, the filter keeps them all |
| SearchAr.FilterNoFilters | frontend/js/search-ar.js:89-92 | with all three filters empty every document is kept |
| SearchAr.FilterCivil | frontend/js/search-ar.js:88-93 | the category "civil" keeps only the civil-law document |
| SearchAr.FilterYear2023 | frontend/js/search-ar.js:88-93 | the year "2023" keeps the first and the last document |
| SearchAr.SearchTermNotTrimmed | frontend/js/search-ar.js:84 | the search term is lowercased but not trimmed: " " drops a document with no space that "" keeps |
| SearchAr.Cards | frontend/js/search-ar.js:54-80 | one card per document, in order |
| SearchAr.Rendered | frontend/js/search-ar.js:46-81 | an empty list renders only the no-results message; otherwise exactly one card per document, in order, and no message |
| SearchAr.InitialRenderShowsAll | frontend/js/search-ar.js:103 | the initial render shows all four documents as cards |
| SearchAr.SearchPage.Load | frontend/js/search-ar.js:2-44 | loading sets up the table and the inputs and renders every document |
| SearchAr.SearchPage.RenderResults | frontend/js/search-ar.js:46-81 | the container is cleared and then holds Rendered of the documents |
| SearchAr.SearchPage.FilterAndRender | frontend/js/search-ar.js:83-96 | the container holds the rendering of the documents filtered by the lowercased search term and the two selections |
| SearchAr.SearchPage.OnSearchInput | frontend/js/search-ar.js:98 | a search input sets the value and re-renders; the selections are unchanged |
| SearchAr.SearchPage.OnCategoryChange | frontend/js/search-ar.js:99 | a category change sets the value and re-renders; the other inputs are unchanged |
| SearchAr.SearchPage.OnYearChange | frontend/js/search-ar.js:100 | a year change sets the value and re-renders; the other inputs are unchanged |
| NavScript.NonEmptySegments | frontend/js/nav-script.js:36 | the filter keeps exactly the non-empty segments: every kept segment is non-empty and every non-empty segment is kept |
| NavScript.CurrentPage | frontend/js/nav-script.js:36-38 | with the trailing '/'s dropped, an empty pathname gives index.html and any other gives what follows its last '/'; the page is never empty and has no '/', so the reassignment at line 38 cannot run |
| NavScript.LastNonEmptySegment | frontend/js/nav-script.js:36-37 | the filter keeps nothing exactly when the pathname is all '/', and otherwise its last segment is what follows the last '/' once the trailing '/'s are dropped |
| NavScript.CurrentPageOfRoot | frontend/js/nav-script.js:36-37 | the paths "/" and "" both mean index.html |
| NavScript.CurrentPageOfSlashes | frontend/js/nav-script.js:36-37 | a pathname made only of '/', of any length, means index.html |
| NavScript.CurrentPageOfFile | frontend/js/nav-script.js:36-37 | a path ending in a file name, with or without a trailing '/', gives that file name |
| NavScript.LinkPageOfFile | frontend/js/nav-script.js:45 | a link to dir/page points at page |
| NavScript.LinkPage | frontend/js/nav-script.js:45 | a link's page is exactly the part of its href after the last '/', or all of it when there is none; it has no '/'; an href ending in '/' gives "" |
| NavScript.LinkPageWithoutSlash | frontend/js/nav-script.js:45 | an href without '/', such as "select-issue.html", is its own page |
| NavScript.IsActive | frontend/js/nav-script.js:43-53 | a link without an href, or with an empty one, is never marked; away from the index page a link is marked exactly when its page is the current page |
| NavScript.RootLinkActiveOnlyOnIndex | frontend/js/nav-script.js:45-53 | the "/" link is marked exactly on the index page |
| NavScript.HomeLinksOnIndex | frontend/js/nav-script.js:51-53 | on the index page "/", "index.html" and "./" are all marked |
| NavScript.LinkWithoutHrefUntouched | frontend/js/nav-script.js:43-44 | a link without an href, or with an empty one, is left as it is |
| NavScript.Marked | frontend/js/nav-script.js:43-53 | the href is kept; the link ends up marked exactly when it already was or it points at the current page (or is a home link on the index page) |
| NavScript.MarkActiveLinks | frontend/js/nav-script.js:40-55 | every link in the list is marked as Marked says, in place |
| NavScript.MarkLink | frontend/js/nav-script.js:43-53 | one turn of the loop marks the link at i as Marked says and leaves every other link alone |
| NavScript.Toggled | frontend/js/nav-script.js:8-13 | a toggle flips both active classes and sets aria-expanded to the negation, where absent counts as false |
| NavScript.Closed | frontend/js/nav-script.js:21-28 | a link click on an open menu clears both classes and sets aria-expanded to the string "false"; on a closed menu it changes nothing |
| NavScript.HandlersKeepSynced | frontend/js/nav-script.js:8-28 | both handlers keep the two classes and aria-expanded in agreement |
| NavScript.ToggleTwice | frontend/js/nav-script.js:8-13 | two toggles restore the state once aria-expanded has been written |
| NavScript.CloseIdempotent | frontend/js/nav-script.js:21-28 | a second link click changes nothing |
| NavScript.Menu.constructor | frontend/js/nav-script.js:3-4 | the menu starts in the given state |
| NavScript.Menu.Toggle | frontend/js/nav-script.js:8-17 | the menu button's handler changes the state as Toggled says |
| NavScript.Menu.LinkClicked | frontend/js/nav-script.js:21-28 | a nav link's handler changes the state as Closed says |

## Left out

- The text splitter's behaviour (ingestion.py:78-84): chunk lengths, overlap and coverage belong to the library. The splitter is a function parameter; only the empty guard in front of it is modelled.
- PyPDF2 parsing, HuggingFace embeddings, Chroma storage and similarity search, and Gemini generation are external services. Each is an oracle or a flag. Similarity ranking and distances are not modelled; retrieval returns whatever documents the oracle gives.
- `initialize_embedding_model`, `initialize_vector_store` and the `__main__` block of ingestion.py (ingestion.py:89-141, 220-245) are left out. They build the store the pipeline receives and are I/O set-up; the pipeline starts from any given store.
- The store's document-count warning (`_collection.count() == 0`) only logs.
- Gemini safety settings and the generation temperature are opaque configuration constants.
- The prose of the prompt template is left out. A prompt is the three values substituted into it: context, category and question. The unused `ChatPromptTemplate.from_template` result has no effect.
- Logging and tracebacks are left out. So are `os.path`, `glob`, `os.makedirs`, `os.getenv` and dotenv, Flask routing, CORS and `app.run`. The environment variable and the directory test are fields of `InitEnv`.
- The directory listing is a sequence of files, processed in the order given. The "no PDF files" early return (ingestion.py:149-151) is the empty sequence, which leaves the store unchanged.
- IngestAllIdempotent: each file's add_texts outcome is the same on both runs. A file whose add_texts fails on the first run and succeeds on the second is appended by the second run, as RetriedAfterFailedAdd states.
- All oracles are deterministic per file and per prompt. A failing `add_texts` is modelled as adding nothing. The model does not say what a partial write would leave behind.
- `frontend/js/script.js`, `frontend/js/search.js` and `frontend/js/select-issue-chat.js` are not part of this model. They are DOM code around network fetches. `frontend/js/language.js` is not part of this model either; it substitutes text from a static table.
- Strings.ToLower lowercases ASCII letters only. JavaScript's full Unicode case mapping is not modelled. Arabic has no case, so the document table is unaffected.
- The response's `text` accessor raises in the real SDK when a response has no text. Here a response's text is an optional value, and an accessor that raises is not modelled.
- JSON numbers are integers. Floats, and their truthiness, are not modelled.
- A result card is `ResultCard(doc)`, not its HTML markup.
- Event-listener registration is left out, and so is the `if (menuToggle && navLinksUl)` guard. A `Menu` exists only for a page that has both elements.
- The `.navbar .nav-links .nav-link` selector is left out: the array of links is the list it returns.
