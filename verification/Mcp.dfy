/**
 * MCP requests in JSON-RPC 2.0 bodies (arbiter-mcp): what the parser accepts, and the canonical
 * body that is printed from what it extracted. Bodies are JSON trees; reading and writing their
 * text is not modelled, and the length of a value's text is a parameter.
 */
module Mcp {
  import opened Common

  datatype Json =
    | JNull
    | JBool(b: bool)
    | JNum(n: real)
    | JStr(s: string)
    | JArr(items: seq<Json>)
    | JObj(fields: map<string, Json>)
  {
    /** `Value::get` with a string key. */
    function Get(key: string): Option<Json> {
      if JObj? && key in fields then Some(fields[key]) else None
    }

    function AsStr(): Option<string> {
      if JStr? then Some(s) else None
    }
  }

  datatype RpcRequest = RpcRequest(jsonrpc: string, id: Option<Json>, rpcMethod: string, params: Option<Json>)

  datatype McpRequest = McpRequest(
    id: Option<Json>,
    rpcMethod: string,
    toolName: Option<string>,
    arguments: Option<Json>,
    resourceUri: Option<string>)

  datatype ParseResult = McpContext(requests: seq<McpRequest>) | NonMcp

  const MAX_BATCH_SIZE := 100
  const MAX_ID_LEN := 256
  const MAX_TOOL_NAME_LEN := 256
  const MAX_ARGUMENTS_SIZE := 65536
  const MAX_ODD_URI_LEN := 2048

  const ALLOWED_METHODS: seq<string> := [
    "tools/call", "tools/list", "resources/read", "resources/list", "resources/subscribe", "resources/unsubscribe",
    "prompts/get", "prompts/list", "completion/complete", "logging/setLevel", "initialize", "ping",
    "notifications/initialized", "notifications/cancelled", "notifications/progress",
    "notifications/roots/list_changed", "notifications/resources/updated", "notifications/resources/list_changed",
    "notifications/tools/list_changed", "notifications/prompts/list_changed"]

  /** The length of a string in UTF-8. */
  function Utf8Len(s: string): nat {
    if s == [] then 0
    else
      var c := s[0] as int;
      (if c < 0x80 then 1 else if c < 0x800 then 2 else if c < 0x10000 then 3 else 4) + Utf8Len(s[1..])
  }

  predicate ValidToolChar(c: char) {
    'a' <= c <= 'z' || 'A' <= c <= 'Z' || '0' <= c <= '9' || c in "_-./:"
  }

  predicate ValidToolName(name: string) {
    name != [] && |name| <= MAX_TOOL_NAME_LEN && forall i :: 0 <= i < |name| ==> ValidToolChar(name[i])
  }

  predicate Contains(s: string, pat: string) {
    pat <= s || (s != [] && Contains(s[1..], pat))
  }

  predicate AcceptableUri(uri: string) {
    var safe := "https://" <= uri || "http://" <= uri || !Contains(uri, "://") || "urn:" <= uri;
    var dangerous := "file://" <= uri || "data:" <= uri || "javascript:" <= uri;
    !(dangerous || (!safe && Utf8Len(uri) > MAX_ODD_URI_LEN))
  }

  /** Optional fields read JSON null as absent. */
  function NonNull(j: Option<Json>): Option<Json> {
    if j.Some? && j.value.JNull? then None else j
  }

  /** A request read as a record: from an object by field names or from an array by position. */
  function FromValue(j: Json): Option<RpcRequest> {
    match j
    case JObj(fields) =>
      if j.Get("jsonrpc").Some? && j.Get("jsonrpc").value.JStr? && j.Get("method").Some? && j.Get("method").value.JStr?
      then Some(RpcRequest(j.Get("jsonrpc").value.s, NonNull(j.Get("id")), j.Get("method").value.s, NonNull(j.Get("params"))))
      else None
    case JArr(items) =>
      if 3 <= |items| <= 4 && items[0].JStr? && items[2].JStr?
      then Some(RpcRequest(items[0].s, NonNull(Some(items[1])), items[2].s,
                           if |items| == 4 then NonNull(Some(items[3])) else None))
      else None
    case _ => None
  }

  predicate ValidId(id: Option<Json>) {
    match id
    case None => true
    case Some(JStr(s)) => Utf8Len(s) <= MAX_ID_LEN
    case Some(JNum(_)) => true
    case Some(JNull) => true
    case Some(_) => false
  }

  function ExtractTool(rpc: RpcRequest): Option<string> {
    if rpc.rpcMethod == "tools/call" && rpc.params.Some? && rpc.params.value.Get("name").Some?
       && rpc.params.value.Get("name").value.JStr? && ValidToolName(rpc.params.value.Get("name").value.s)
    then Some(rpc.params.value.Get("name").value.s) else None
  }

  function ExtractArguments(size: Json -> nat, rpc: RpcRequest): Option<Json> {
    if rpc.rpcMethod == "tools/call" && rpc.params.Some? && rpc.params.value.Get("arguments").Some?
       && size(rpc.params.value.Get("arguments").value) <= MAX_ARGUMENTS_SIZE
    then rpc.params.value.Get("arguments") else None
  }

  predicate TakesUri(rpcMethod: string) {
    rpcMethod == "resources/read" || rpcMethod == "resources/subscribe"
  }

  function ExtractUri(rpc: RpcRequest): Option<string> {
    if TakesUri(rpc.rpcMethod) && rpc.params.Some? && rpc.params.value.Get("uri").Some?
       && rpc.params.value.Get("uri").value.JStr? && AcceptableUri(rpc.params.value.Get("uri").value.s)
    then Some(rpc.params.value.Get("uri").value.s) else None
  }

  predicate Admissible(rpc: RpcRequest) {
    rpc.jsonrpc == "2.0" && ValidId(rpc.id) && rpc.rpcMethod in ALLOWED_METHODS
  }

  function ParseSingle(size: Json -> nat, j: Json): Option<McpRequest> {
    var rpc := FromValue(j);
    if rpc.None? || !Admissible(rpc.value) then None
    else Some(McpRequest(rpc.value.id, rpc.value.rpcMethod, ExtractTool(rpc.value), ExtractArguments(size, rpc.value),
                         ExtractUri(rpc.value)))
  }

  predicate LooksLikeRpc(j: Json) {
    j.Get("jsonrpc").Some? || j.Get("method").Some?
  }

  /** The requests of a batch; none at all if an item looks like a request but is not one. */
  function ParseItems(size: Json -> nat, items: seq<Json>): Option<seq<McpRequest>> {
    if items == [] then Some([])
    else
      var first, rest := ParseSingle(size, items[0]), ParseItems(size, items[1..]);
      if first.None? then (if LooksLikeRpc(items[0]) then None else rest)
      else if rest.None? then None
      else Some([first.value] + rest.value)
  }

  /** `parse_mcp_body`, on the tree the body was read as (if it was JSON at all). */
  function Parse(size: Json -> nat, body: Option<Json>): ParseResult {
    match body
    case Some(JArr(items)) =>
      if |items| > MAX_BATCH_SIZE then NonMcp
      else
        var requests := ParseItems(size, items);
        if requests.None? || requests.value == [] then NonMcp else McpContext(requests.value)
    case Some(JObj(fields)) =>
      var request := ParseSingle(size, body.value);
      if request.None? then NonMcp else McpContext([request.value])
    case _ => NonMcp
  }

  function With(fields: map<string, Json>, key: string, value: Option<Json>): map<string, Json> {
    if value.Some? then fields[key := value.value] else fields
  }

  function Str(s: Option<string>): Option<Json> {
    if s.Some? then Some(JStr(s.value)) else None
  }

  function PrintParams(r: McpRequest): map<string, Json> {
    With(With(With(map[], "name", Str(r.toolName)), "arguments", r.arguments), "uri", Str(r.resourceUri))
  }

  /** `to_jsonrpc`. */
  function Print(r: McpRequest): Json {
    var head := With(map["jsonrpc" := JStr("2.0")], "id", r.id)["method" := JStr(r.rpcMethod)];
    JObj(if PrintParams(r) == map[] then head else head["params" := JObj(PrintParams(r))])
  }

  /** `to_canonical_body`. */
  function CanonicalBody(requests: seq<McpRequest>): Json {
    if |requests| == 1 then Print(requests[0]) else JArr(seq(|requests|, i requires 0 <= i < |requests| => Print(requests[i])))
  }

  // ---------------------------------------------------------------------------
  // The parser's and the printer's code
  // ---------------------------------------------------------------------------

  /** What the parameters of a tool call or resource request hold. */
  method ExtractFields(size: Json -> nat, rpc: RpcRequest)
    returns (toolName: Option<string>, arguments: Option<Json>, uri: Option<string>)
    ensures toolName == ExtractTool(rpc) && arguments == ExtractArguments(size, rpc) && uri == ExtractUri(rpc)
  {
    toolName, arguments, uri := None, None, None;
    if rpc.params.Some? {
      var params := rpc.params.value;
      if rpc.rpcMethod == "tools/call" {
        var name := params.Get("name");
        if name.Some? && name.value.AsStr().Some? && ValidToolName(name.value.AsStr().value) {
          toolName := name.value.AsStr();
        }
        var args := params.Get("arguments");
        if args.Some? && size(args.value) <= MAX_ARGUMENTS_SIZE {
          arguments := args;
        }
      }
      if rpc.rpcMethod == "resources/read" || rpc.rpcMethod == "resources/subscribe" {
        var u := params.Get("uri");
        if u.Some? && u.value.AsStr().Some? && AcceptableUri(u.value.AsStr().value) {
          uri := u.value.AsStr();
        }
      }
    }
  }

  method TryParseSingle(size: Json -> nat, value: Json) returns (r: Option<McpRequest>)
    ensures r == ParseSingle(size, value)
  {
    var parsed := FromValue(value);
    if parsed.None? {
      return None;
    }
    var rpc := parsed.value;
    if rpc.jsonrpc != "2.0" {
      return None;
    }
    if rpc.id.Some? {
      match rpc.id.value
      case JStr(s) =>
        if Utf8Len(s) > MAX_ID_LEN {
          return None;
        }
      case JNum(_) =>
      case JNull =>
      case _ =>
        return None;
    }
    if rpc.rpcMethod !in ALLOWED_METHODS {
      return None;
    }
    var toolName, arguments, uri := ExtractFields(size, rpc);
    return Some(McpRequest(rpc.id, rpc.rpcMethod, toolName, arguments, uri));
  }

  /** The loop over the items of a batch. */
  method ParseBatch(size: Json -> nat, items: seq<Json>) returns (r: Option<seq<McpRequest>>)
    ensures r == ParseItems(size, items)
  {
    var requests: seq<McpRequest> := [];
    assert items[0..] == items;
    assert Prepend([], ParseItems(size, items)) == ParseItems(size, items) by {
      if ParseItems(size, items).Some? {
        assert [] + ParseItems(size, items).value == ParseItems(size, items).value;
      }
    }
    for i := 0 to |items|
      invariant ParseItems(size, items) == Prepend(requests, ParseItems(size, items[i..]))
    {
      var item := items[i];
      var looksLikeRpc := item.Get("jsonrpc").Some? || item.Get("method").Some?;
      var request := TryParseSingle(size, item);
      assert items[i..][0] == item && items[i..][1..] == items[i + 1..];
      if request.Some? {
        PrependCons(requests, request.value, ParseItems(size, items[i + 1..]));
        requests := requests + [request.value];
      } else if looksLikeRpc {
        return None;
      }
    }
    assert items[|items|..] == [] && requests + [] == requests;
    return Some(requests);
  }

  lemma PrependCons(front: seq<McpRequest>, first: McpRequest, rest: Option<seq<McpRequest>>)
    ensures Prepend(front, if rest.None? then None else Some([first] + rest.value)) == Prepend(front + [first], rest)
  {
    if rest.Some? {
      assert front + ([first] + rest.value) == front + [first] + rest.value;
    }
  }

  method ParseMcpBody(size: Json -> nat, body: Option<Json>) returns (r: ParseResult)
    ensures r == Parse(size, body)
  {
    if body.None? {
      return NonMcp;
    }
    match body.value
    case JArr(items) =>
      if |items| > MAX_BATCH_SIZE {
        return NonMcp;
      }
      var batch := ParseBatch(size, items);
      if batch.None? {
        return NonMcp;
      }
      var requests := batch.value;
      if requests == [] {
        return NonMcp;
      }
      return McpContext(requests);
    case JObj(_) =>
      var request := TryParseSingle(size, body.value);
      if request.None? {
        return NonMcp;
      }
      return McpContext([request.value]);
    case _ =>
      return NonMcp;
  }

  ghost function Prepend(front: seq<McpRequest>, rest: Option<seq<McpRequest>>): Option<seq<McpRequest>> {
    if rest.None? then None else Some(front + rest.value)
  }

  method ToJsonRpc(r: McpRequest) returns (j: Json)
    ensures j == Print(r)
  {
    var obj := map["jsonrpc" := JStr("2.0")];
    if r.id.Some? {
      obj := obj["id" := r.id.value];
    }
    obj := obj["method" := JStr(r.rpcMethod)];
    var params: map<string, Json> := map[];
    if r.toolName.Some? {
      params := params["name" := JStr(r.toolName.value)];
    }
    if r.arguments.Some? {
      params := params["arguments" := r.arguments.value];
    }
    if r.resourceUri.Some? {
      params := params["uri" := JStr(r.resourceUri.value)];
    }
    if params != map[] {
      obj := obj["params" := JObj(params)];
    }
    return JObj(obj);
  }

  // ---------------------------------------------------------------------------
  // Round trip
  // ---------------------------------------------------------------------------

  /** What every parsed request satisfies. */
  predicate WellFormed(size: Json -> nat, r: McpRequest) {
    && ValidId(r.id) && r.id != Some(JNull)
    && r.rpcMethod in ALLOWED_METHODS
    && (r.toolName.Some? ==> r.rpcMethod == "tools/call" && ValidToolName(r.toolName.value))
    && (r.arguments.Some? ==> r.rpcMethod == "tools/call" && size(r.arguments.value) <= MAX_ARGUMENTS_SIZE)
    && (r.resourceUri.Some? ==> TakesUri(r.rpcMethod) && AcceptableUri(r.resourceUri.value))
  }

  lemma ParsedIsWellFormed(size: Json -> nat, j: Json)
    ensures ParseSingle(size, j).Some? ==> WellFormed(size, ParseSingle(size, j).value)
  {
  }

  lemma PrintedParams(r: McpRequest)
    ensures JObj(PrintParams(r)).Get("name") == Str(r.toolName)
    ensures JObj(PrintParams(r)).Get("arguments") == r.arguments
    ensures JObj(PrintParams(r)).Get("uri") == Str(r.resourceUri)
    ensures PrintParams(r) == map[] <==> r.toolName.None? && r.arguments.None? && r.resourceUri.None?
  {
    assert "name" != "arguments" && "name" != "uri" && "arguments" != "uri";
  }

  lemma PrintedHead(r: McpRequest)
    ensures Print(r).Get("jsonrpc") == Some(JStr("2.0"))
    ensures Print(r).Get("id") == r.id
    ensures Print(r).Get("method") == Some(JStr(r.rpcMethod))
    ensures Print(r).Get("params") == if PrintParams(r) == map[] then None else Some(JObj(PrintParams(r)))
  {
    assert |"jsonrpc"| == 7 && |"id"| == 2;
    assert "method"[0] != "params"[0];
    assert |"method"| == 6 && |"params"| == 6;
  }

  /** Parsing a printed request gives it back. */
  lemma PrintParse(size: Json -> nat, r: McpRequest)
    requires WellFormed(size, r)
    ensures ParseSingle(size, Print(r)) == Some(r)
  {
    PrintedHead(r);
    PrintedParams(r);
    var params := if PrintParams(r) == map[] then None else Some(JObj(PrintParams(r)));
    assert FromValue(Print(r)) == Some(RpcRequest("2.0", r.id, r.rpcMethod, params));
  }

  lemma {:induction false} ItemsWellFormed(size: Json -> nat, items: seq<Json>)
    requires ParseItems(size, items).Some?
    ensures |ParseItems(size, items).value| <= |items|
    ensures forall r :: r in ParseItems(size, items).value ==> WellFormed(size, r)
  {
    if items != [] {
      ParsedIsWellFormed(size, items[0]);
      ItemsWellFormed(size, items[1..]);
    }
  }

  lemma ItemParses(size: Json -> nat, first: McpRequest, rest: seq<McpRequest>, items: seq<Json>)
    requires items != [] && ParseSingle(size, items[0]) == Some(first) && ParseItems(size, items[1..]) == Some(rest)
    ensures ParseItems(size, items) == Some([first] + rest)
  {
  }

  lemma {:induction false} ItemsParse(size: Json -> nat, requests: seq<McpRequest>, items: seq<Json>)
    requires |items| == |requests| && forall i :: 0 <= i < |items| ==> ParseSingle(size, items[i]) == Some(requests[i])
    ensures ParseItems(size, items) == Some(requests)
    decreases |items|
  {
    if items != [] {
      ItemsParse(size, requests[1..], items[1..]);
      ItemParses(size, requests[0], requests[1..], items);
      assert requests == [requests[0]] + requests[1..];
    }
  }

  lemma PrintedItemsParse(size: Json -> nat, requests: seq<McpRequest>, items: seq<Json>)
    requires forall r :: r in requests ==> WellFormed(size, r)
    requires |items| == |requests| && forall i :: 0 <= i < |items| ==> items[i] == Print(requests[i])
    ensures ParseItems(size, items) == Some(requests)
  {
    forall i | 0 <= i < |items|
      ensures ParseSingle(size, items[i]) == Some(requests[i])
    {
      PrintParse(size, requests[i]);
    }
    ItemsParse(size, requests, items);
  }

  /** The contexts that some body parses to. */
  ghost predicate Canonical(size: Json -> nat, requests: seq<McpRequest>) {
    1 <= |requests| <= MAX_BATCH_SIZE && forall r :: r in requests ==> WellFormed(size, r)
  }

  /** A context of well-formed requests is what its canonical body parses to. */
  lemma CanonicalBodyParses(size: Json -> nat, requests: seq<McpRequest>)
    requires Canonical(size, requests)
    ensures Parse(size, Some(CanonicalBody(requests))) == McpContext(requests)
  {
    if |requests| == 1 {
      PrintParse(size, requests[0]);
      assert requests == [requests[0]];
    } else {
      PrintedItemsParse(size, requests, CanonicalBody(requests).items);
    }
  }

  /**
   * Parser and printer undo each other: whatever body a context was parsed from, single or batch,
   * its canonical body parses to the same context.
   */
  lemma ParsePrintParse(size: Json -> nat, body: Option<Json>)
    requires Parse(size, body).McpContext?
    ensures Parse(size, Some(CanonicalBody(Parse(size, body).requests))) == Parse(size, body)
  {
    ParsedIsCanonical(size, body);
    CanonicalBodyParses(size, Parse(size, body).requests);
  }

  lemma ParsedIsCanonical(size: Json -> nat, body: Option<Json>)
    requires Parse(size, body).McpContext?
    ensures Canonical(size, Parse(size, body).requests)
  {
    match body.value
    case JArr(items) => ItemsWellFormed(size, items);
    case JObj(fields) => ParsedIsWellFormed(size, body.value);
  }

  /** Exactly the canonical contexts are ever returned. */
  lemma ContextsAreCanonical(size: Json -> nat, requests: seq<McpRequest>)
    ensures Canonical(size, requests) <==> exists body :: Parse(size, body) == McpContext(requests)
  {
    if Canonical(size, requests) {
      CanonicalBodyParses(size, requests);
    }
    if body :| Parse(size, body) == McpContext(requests) {
      ParsedIsCanonical(size, body);
    }
  }
}
