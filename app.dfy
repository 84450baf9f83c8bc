/**
 * app.py: the Flask application. `home` answers GET /, and `chat_endpoint` validates a POST
 * /api/chat body and hands the message and category to rag_service.get_rag_response. Starting
 * the application initialises the root copy of the query service twice: once when
 * rag_service is imported, and again after the .env file has been loaded.
 */
module App {
  import opened Wrappers
  import RagCommon
  import RagService

  /** A JSON value as request.get_json() decodes it (numbers are integers here). */
  datatype Json =
    | JNull
    | JBool(b: bool)
    | JNum(n: int)
    | JStr(s: string)
    | JArr(items: seq<Json>)
    | JObj(fields: map<string, Json>)

  /** Python's truthiness of a decoded JSON value. */
  predicate Truthy(j: Json) {
    match j
    case JNull => false
    case JBool(b) => b
    case JNum(n) => n != 0
    case JStr(s) => s != ""
    case JArr(items) => items != []
    case JObj(fields) => |fields| != 0
  }

  /** data.get(key): None, which is JSON null, when the key is absent. */
  function Get(fields: map<string, Json>, key: string): Json {
    if key in fields then fields[key] else JNull
  }

  /** A jsonify body: {"error": ...} or {"reply": ...}; or a plain text body. */
  datatype Body = Error(error: string) | Reply(reply: string) | Text(text: string)

  datatype HttpResponse = HttpResponse(status: nat, body: Body)

  const HOME_TEXT: string := "Mezan Backend is running!"
  const REQUIRED_ERROR: string := "Bad Request: 'message' and 'category' are required."
  const STRINGS_ERROR: string := "Bad Request: 'message' and 'category' must be strings."
  const INTERNAL_ERROR: string := "Internal Server Error processing request."

  /** GET /. */
  function Home(): (r: HttpResponse)
    ensures r.status == 200 && r.body == Text("Mezan Backend is running!")
  {
    HttpResponse(200, Text(HOME_TEXT))
  }

  /**
   * POST /api/chat. The body is None when request.get_json() raises (the body is not JSON);
   * any other decoded value than an object makes data.get raise. Both reach the handler's
   * `except` and give 500. rag is get_rag_response. The endpoint answers 200, 400 or 500,
   * always with a JSON body, and a reply comes exactly with 200.
   */
  function ChatEndpoint(body: Option<Json>, rag: (string, string) -> string): (r: HttpResponse)
    ensures r.status in {200, 400, 500}
    ensures !r.body.Text?
    ensures r.status == 200 <==> r.body.Reply?
  {
    if body.None? || !body.value.JObj? then HttpResponse(500, Error(INTERNAL_ERROR))
    else
      var message := Get(body.value.fields, "message");
      var category := Get(body.value.fields, "category");
      if !Truthy(message) || !Truthy(category) then HttpResponse(400, Error(REQUIRED_ERROR))
      else if !message.JStr? || !category.JStr? then HttpResponse(400, Error(STRINGS_ERROR))
      else HttpResponse(200, Reply(rag(message.s, category.s)))
  }

  /** Reference definition of a request the endpoint accepts: an object whose message and category are non-empty strings. */
  predicate ValidRequest(body: Option<Json>) {
    body.Some? && body.value.JObj? &&
    "message" in body.value.fields && body.value.fields["message"].JStr? &&
    body.value.fields["message"].s != "" &&
    "category" in body.value.fields && body.value.fields["category"].JStr? &&
    body.value.fields["category"].s != ""
  }

  /** 200 exactly for a valid request, with get_rag_response's reply for the message and category unchanged. */
  lemma ChatOkIffValid(body: Option<Json>, rag: (string, string) -> string)
    ensures ChatEndpoint(body, rag).status == 200 <==> ValidRequest(body)
    ensures ValidRequest(body) ==>
      ChatEndpoint(body, rag).body ==
        Reply(rag(body.value.fields["message"].s, body.value.fields["category"].s))
  {
  }

  /** A falsy or absent message or category is reported as missing, whatever its type. */
  lemma ChatRequiredFirst(fields: map<string, Json>, rag: (string, string) -> string)
    requires !Truthy(Get(fields, "message")) || !Truthy(Get(fields, "category"))
    ensures ChatEndpoint(Some(JObj(fields)), rag) == HttpResponse(400, Error(REQUIRED_ERROR))
  {
  }

  /** {"message": 0, ...}: 0 is falsy, so the message counts as missing rather than mistyped. */
  lemma ChatZeroMessageIsMissing(category: Json, rag: (string, string) -> string)
    ensures ChatEndpoint(Some(JObj(map["message" := JNum(0), "category" := category])), rag).body ==
      Error(REQUIRED_ERROR)
  {
  }

  /** A truthy message and category of which one is not a string are reported as mistyped. */
  lemma ChatMistyped(fields: map<string, Json>, rag: (string, string) -> string)
    requires Truthy(Get(fields, "message")) && Truthy(Get(fields, "category"))
    requires !Get(fields, "message").JStr? || !Get(fields, "category").JStr?
    ensures ChatEndpoint(Some(JObj(fields)), rag) == HttpResponse(400, Error(STRINGS_ERROR))
  {
  }

  /** A body that is not JSON, or JSON that is not an object, gives 500. */
  lemma ChatNotObject(body: Option<Json>, rag: (string, string) -> string)
    requires body.None? || !body.value.JObj?
    ensures ChatEndpoint(body, rag) == HttpResponse(500, Error(INTERNAL_ERROR))
  {
  }

  /** Through the root query service, an accepted request always gets a non-empty reply. */
  lemma ChatReplyNonEmpty(body: Option<Json>, h: RagCommon.Handles, retrieve: RagCommon.Retriever, generate: RagCommon.Generator)
    requires ValidRequest(body)
    ensures var r := ChatEndpoint(body, (m, c) => RagService.RagResponse(h, m, c, retrieve, generate));
      r.status == 200 && r.body.Reply? && r.body.reply != ""
  {
  }

  /**
   * Start-up: importing rag_service initialises the components with the environment as it is
   * before .env is loaded (importEnv), and app.py initialises them again afterwards (startEnv).
   */
  method Start(importEnv: RagCommon.InitEnv, startEnv: RagCommon.InitEnv) returns (rag: RagService.Components)
    ensures fresh(rag)
    ensures rag.Current() == RagService.InitStep(RagService.InitStep(RagCommon.NoHandles, importEnv), startEnv)
  {
    rag := new RagService.Components.Import(importEnv);
    rag.Initialize(startEnv);
  }

  /**
   * The second initialisation builds the LLM when the API key is available by then, building
   * succeeds and the index directory exists, whatever happened at import.
   */
  lemma SecondInitialisationBuildsLlm(importEnv: RagCommon.InitEnv, startEnv: RagCommon.InitEnv)
    requires RagCommon.HasApiKey(startEnv) && startEnv.llmLoads && startEnv.storeDirExists
    ensures RagService.InitStep(RagService.InitStep(RagCommon.NoHandles, importEnv), startEnv).llm.Some?
  {
  }
}
