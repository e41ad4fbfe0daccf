/**
 * What the parser takes for a request and what it makes of a body, said in the fields of the JSON
 * tree: nothing that looks like a request gets by unparsed.
 */
module Requests {
  import opened Common
  import opened Mcp

  // ---------------------------------------------------------------------------
  // One request
  // ---------------------------------------------------------------------------

  /** A part of a request: by name in an object, by place in an array. */
  function Part(j: Json, name: string, place: nat): Option<Json> {
    match j
    case JObj(fields) => if name in fields then Some(fields[name]) else None
    case JArr(items) => if place < |items| then Some(items[place]) else None
    case _ => None
  }

  predicate KnownMethod(m: string) {
    m in ["tools/call", "tools/list", "resources/read", "resources/list", "resources/subscribe", "resources/unsubscribe",
          "prompts/get", "prompts/list", "completion/complete", "logging/setLevel", "initialize", "ping",
          "notifications/initialized", "notifications/cancelled", "notifications/progress",
          "notifications/roots/list_changed", "notifications/resources/updated", "notifications/resources/list_changed",
          "notifications/tools/list_changed", "notifications/prompts/list_changed"]
  }

  /** An id is absent, null, a number, or a string of at most 256 bytes. */
  predicate IdFine(id: Option<Json>) {
    id == None || id.value.JNull? || id.value.JNum? || (id.value.JStr? && Utf8Len(id.value.s) <= 256)
  }

  /** What makes a JSON value a request. */
  predicate IsRequest(j: Json) {
    && (j.JObj? || (j.JArr? && (|j.items| == 3 || |j.items| == 4)))
    && Part(j, "jsonrpc", 0) == Some(JStr("2.0"))
    && IdFine(Part(j, "id", 1))
    && Part(j, "method", 2) != None && Part(j, "method", 2).value.JStr? && KnownMethod(Part(j, "method", 2).value.s)
  }

  predicate ToolNameFine(name: string) {
    && 1 <= |name| <= 256
    && forall i :: 0 <= i < |name| ==>
                     || 'a' <= name[i] <= 'z' || 'A' <= name[i] <= 'Z' || '0' <= name[i] <= '9'
                     || name[i] == '_' || name[i] == '-' || name[i] == '.' || name[i] == '/' || name[i] == ':'
  }

  /** No dangerous scheme, and an unusual one only in at most 2048 bytes. */
  ghost predicate UriFine(uri: string) {
    && !("file://" <= uri) && !("data:" <= uri) && !("javascript:" <= uri)
    && (|| "https://" <= uri || "http://" <= uri || "urn:" <= uri
        || Utf8Len(uri) <= 2048
        || forall i :: 0 <= i <= |uri| ==> !("://" <= uri[i..]))
  }

  lemma {:induction false} ContainsIff(s: string, pat: string)
    ensures Contains(s, pat) <==> exists i :: 0 <= i <= |s| && pat <= s[i..]
  {
    if pat <= s {
      assert s[0..] == s;
    } else if s != [] {
      ContainsIff(s[1..], pat);
      if i :| 0 <= i <= |s[1..]| && pat <= s[1..][i..] {
        assert s[1..][i..] == s[i + 1..];
      }
      if i :| 0 <= i <= |s| && pat <= s[i..] {
        assert s[0..] == s;
        assert s[i..] == s[1..][i - 1..];
      }
    } else {
      assert forall i :: 0 <= i <= |s| ==> s[i..] == s;
    }
  }

  lemma UriFineIff(uri: string)
    ensures AcceptableUri(uri) <==> UriFine(uri)
  {
    ContainsIff(uri, "://");
  }

  lemma ToolNameFineIff(name: string)
    ensures ValidToolName(name) <==> ToolNameFine(name)
  {
  }

  /** The parameter of a request, if its method is the given one. */
  function Param(j: Json, name: string): Option<Json> {
    match Part(j, "params", 3)
    case Some(JObj(fields)) => if name in fields then Some(fields[name]) else None
    case _ => None
  }

  /** What the request says its fields are. */
  ghost predicate Carries(size: Json -> nat, j: Json, r: McpRequest) {
    && r.id == (if Part(j, "id", 1) == Some(JNull) then None else Part(j, "id", 1))
    && Part(j, "method", 2) == Some(JStr(r.rpcMethod))
    && (forall t :: r.toolName == Some(t) <==>
                    r.rpcMethod == "tools/call" && Param(j, "name") == Some(JStr(t)) && ToolNameFine(t))
    && (forall a :: r.arguments == Some(a) <==>
                    r.rpcMethod == "tools/call" && Param(j, "arguments") == Some(a) && size(a) <= 65536)
    && (forall u :: r.resourceUri == Some(u) <==>
                    && (r.rpcMethod == "resources/read" || r.rpcMethod == "resources/subscribe")
                    && Param(j, "uri") == Some(JStr(u)) && UriFine(u))
  }

  lemma ReadIff(j: Json)
    ensures FromValue(j) != None && Admissible(FromValue(j).value) <==> IsRequest(j)
    ensures FromValue(j) != None ==>
              var rpc := FromValue(j).value;
              && rpc.id == (if Part(j, "id", 1) == Some(JNull) then None else Part(j, "id", 1))
              && Part(j, "method", 2) == Some(JStr(rpc.rpcMethod))
              && rpc.params == (if Part(j, "params", 3) == Some(JNull) then None else Part(j, "params", 3))
  {
  }

  /** A JSON value parses exactly when it is a request, and then to what it carries. */
  lemma SingleParsesIff(size: Json -> nat, j: Json)
    ensures ParseSingle(size, j) != None <==> IsRequest(j)
    ensures ParseSingle(size, j) != None ==> Carries(size, j, ParseSingle(size, j).value)
  {
    ReadIff(j);
    if IsRequest(j) {
      var rpc := FromValue(j).value;
      forall t
        ensures ExtractTool(rpc) == Some(t) <==>
                rpc.rpcMethod == "tools/call" && Param(j, "name") == Some(JStr(t)) && ToolNameFine(t)
      {
        ToolNameFineIff(t);
      }
      forall u
        ensures ExtractUri(rpc) == Some(u) <==>
                && (rpc.rpcMethod == "resources/read" || rpc.rpcMethod == "resources/subscribe")
                && Param(j, "uri") == Some(JStr(u)) && UriFine(u)
      {
        UriFineIff(u);
      }
    }
  }

  /** A printed request has these fields and no others. */
  lemma PrintedFields(r: McpRequest)
    ensures Print(r).JObj?
    ensures var f := Print(r).fields;
            && f.Keys == {"jsonrpc", "method"} + (if r.id == None then {} else {"id"})
                         + (if r.toolName == None && r.arguments == None && r.resourceUri == None then {} else {"params"})
            && f["jsonrpc"] == JStr("2.0") && f["method"] == JStr(r.rpcMethod) && (r.id != None ==> f["id"] == r.id.value)
    ensures "params" in Print(r).fields ==>
              && Print(r).fields["params"].JObj?
              && var p := Print(r).fields["params"].fields;
                 && p.Keys == (if r.toolName == None then {} else {"name"}) + (if r.arguments == None then {} else {"arguments"})
                              + (if r.resourceUri == None then {} else {"uri"})
                 && (r.toolName != None ==> p["name"] == JStr(r.toolName.value))
                 && (r.arguments != None ==> p["arguments"] == r.arguments.value)
                 && (r.resourceUri != None ==> p["uri"] == JStr(r.resourceUri.value))
  {
    PrintedHead(r);
    PrintedParams(r);
  }

  // ---------------------------------------------------------------------------
  // A body
  // ---------------------------------------------------------------------------

  /** An object that names a version or a method means to be a request. */
  predicate MeantAsRequest(j: Json) {
    j.JObj? && ("jsonrpc" in j.fields || "method" in j.fields)
  }

  /** One request for each place in `at`, in order, read there; the places are all that can be read. */
  ghost predicate Picked(items: seq<Json>, read: Json -> Option<McpRequest>, requests: seq<McpRequest>, at: seq<nat>) {
    ReadAt(items, read, requests, at) && Rising(at) && Covers(items, read, at)
  }

  ghost predicate ReadAt(items: seq<Json>, read: Json -> Option<McpRequest>, requests: seq<McpRequest>, at: seq<nat>) {
    |requests| == |at| && forall k :: 0 <= k < |at| ==> at[k] < |items| && read(items[at[k]]) == Some(requests[k])
  }

  ghost predicate Rising(at: seq<nat>) {
    forall k, l :: 0 <= k < l < |at| ==> at[k] < at[l]
  }

  ghost predicate Covers(items: seq<Json>, read: Json -> Option<McpRequest>, at: seq<nat>) {
    forall i {:trigger Listed(at, i)} :: 0 <= i < |items| && read(items[i]) != None ==> Listed(at, i)
  }

  ghost predicate Listed(at: seq<nat>, i: nat) {
    exists k :: 0 <= k < |at| && at[k] == i
  }

  function Shifted(at: seq<nat>): (r: seq<nat>)
    ensures |r| == |at| && forall k :: 0 <= k < |at| ==> r[k] == at[k] + 1
  {
    seq(|at|, k requires 0 <= k < |at| => at[k] + 1)
  }

  lemma ReadShifted(items: seq<Json>, read: Json -> Option<McpRequest>, requests: seq<McpRequest>, at: seq<nat>)
    requires items != [] && ReadAt(items[1..], read, requests, at)
    ensures ReadAt(items, read, requests, Shifted(at))
  {
    var rest, later := items[1..], Shifted(at);
    forall k | 0 <= k < |later|
      ensures later[k] < |items| && read(items[later[k]]) == Some(requests[k])
    {
      assert rest[at[k]] == items[later[k]];
    }
  }

  lemma ListedShifted(items: seq<Json>, read: Json -> Option<McpRequest>, at: seq<nat>, i: nat)
    requires items != [] && Covers(items[1..], read, at) && 0 < i < |items| && read(items[i]) != None
    ensures Listed(Shifted(at), i) && Listed([0] + Shifted(at), i)
  {
    assert items[1..][i - 1] == items[i];
    assert Listed(at, i - 1);
    var k :| 0 <= k < |at| && at[k] == i - 1;
    assert Shifted(at)[k] == i && ([0] + Shifted(at))[k + 1] == i;
  }

  lemma PickedSkip(items: seq<Json>, read: Json -> Option<McpRequest>, requests: seq<McpRequest>, at: seq<nat>)
    requires items != [] && Picked(items[1..], read, requests, at) && read(items[0]) == None
    ensures Picked(items, read, requests, Shifted(at))
  {
    ReadShifted(items, read, requests, at);
    forall i | 0 <= i < |items| && read(items[i]) != None
      ensures Listed(Shifted(at), i)
    {
      ListedShifted(items, read, at, i);
    }
  }

  lemma PickedTake(items: seq<Json>, read: Json -> Option<McpRequest>, requests: seq<McpRequest>, at: seq<nat>)
    requires items != [] && Picked(items[1..], read, requests, at) && read(items[0]) != None
    ensures Picked(items, read, [read(items[0]).value] + requests, [0] + Shifted(at))
  {
    var all := [0] + Shifted(at);
    ReadShifted(items, read, requests, at);
    TakeFirst(items, read, read(items[0]).value, requests, Shifted(at));
    assert Rising(all);
    forall i | 0 <= i < |items| && read(items[i]) != None
      ensures Listed(all, i)
    {
      if i == 0 {
        assert all[0] == i;
      } else {
        ListedShifted(items, read, at, i);
      }
    }
  }

  lemma TakeFirst(items: seq<Json>, read: Json -> Option<McpRequest>, first: McpRequest, requests: seq<McpRequest>, at: seq<nat>)
    requires items != [] && read(items[0]) == Some(first) && ReadAt(items, read, requests, at)
    ensures ReadAt(items, read, [first] + requests, [0] + at)
  {
  }

  /** The parser of one item. */
  function Reader(size: Json -> nat): Json -> Option<McpRequest> {
    j => ParseSingle(size, j)
  }

  lemma {:induction false} ItemsPicked(size: Json -> nat, items: seq<Json>) returns (at: seq<nat>)
    requires ParseItems(size, items) != None
    ensures Picked(items, Reader(size), ParseItems(size, items).value, at)
  {
    if items == [] {
      at := [];
    } else {
      at := ItemsPicked(size, items[1..]);
      var requests := ParseItems(size, items[1..]).value;
      if Reader(size)(items[0]) == None {
        PickedSkip(items, Reader(size), requests, at);
        at := Shifted(at);
      } else {
        PickedTake(items, Reader(size), requests, at);
        at := [0] + Shifted(at);
      }
    }
  }

  /** Every item that means to be a request is one. */
  ghost predicate NoneSlipsBy(items: seq<Json>) {
    forall i :: 0 <= i < |items| && MeantAsRequest(items[i]) ==> IsRequest(items[i])
  }

  lemma NoneSlipsByCons(items: seq<Json>)
    requires items != []
    ensures NoneSlipsBy(items) <==> (MeantAsRequest(items[0]) ==> IsRequest(items[0])) && NoneSlipsBy(items[1..])
  {
    var rest := items[1..];
    if NoneSlipsBy(items) {
      forall i | 0 <= i < |rest| && MeantAsRequest(rest[i])
        ensures IsRequest(rest[i])
      {
        assert rest[i] == items[i + 1];
      }
    }
    if (MeantAsRequest(items[0]) ==> IsRequest(items[0])) && NoneSlipsBy(rest) {
      forall i | 0 <= i < |items| && MeantAsRequest(items[i])
        ensures IsRequest(items[i])
      {
        assert i > 0 ==> items[i] == rest[i - 1];
      }
    }
  }

  lemma {:induction false} ItemsParseIff(size: Json -> nat, items: seq<Json>)
    ensures ParseItems(size, items) != None <==> NoneSlipsBy(items)
  {
    if items != [] {
      ItemsParseIff(size, items[1..]);
      NoneSlipsByCons(items);
      SingleParsesIff(size, items[0]);
    }
  }

  /**
   * A batch becomes a context exactly when it has at most 100 items, some item is a request, and every
   * item that means to be one is one; the context then holds the requests of all such items, in order.
   */
  lemma BatchParsesIff(size: Json -> nat, items: seq<Json>) returns (at: seq<nat>)
    ensures Parse(size, Some(JArr(items))) != NonMcp <==>
            |items| <= 100 && (exists i :: 0 <= i < |items| && IsRequest(items[i])) && NoneSlipsBy(items)
    ensures Parse(size, Some(JArr(items))) != NonMcp ==>
              Picked(items, Reader(size), Parse(size, Some(JArr(items))).requests, at)
  {
    ItemsParseIff(size, items);
    at := [];
    if ParseItems(size, items) != None {
      at := ItemsPicked(size, items);
      if i :| 0 <= i < |items| && IsRequest(items[i]) {
        SingleParsesIff(size, items[i]);
        assert Reader(size)(items[i]) != None;
        assert Listed(at, i);
      }
      if at != [] {
        assert Reader(size)(items[at[0]]) != None;
        SingleParsesIff(size, items[at[0]]);
      }
    }
  }

  /** Any other body is a context exactly when it is one request in an object. */
  lemma BodyParsesIff(size: Json -> nat, body: Option<Json>)
    requires body == None || !body.value.JArr?
    ensures Parse(size, body) != NonMcp <==> body != None && body.value.JObj? && IsRequest(body.value)
    ensures Parse(size, body) != NonMcp ==>
              |Parse(size, body).requests| == 1 && Carries(size, body.value, Parse(size, body).requests[0])
  {
    if body != None {
      SingleParsesIff(size, body.value);
    }
  }

  /** The canonical body: one request as an object, any other number as an array of all, in order. */
  lemma CanonicalShape(requests: seq<McpRequest>)
    ensures |requests| == 1 ==> CanonicalBody(requests) == Print(requests[0])
    ensures |requests| != 1 ==>
              && CanonicalBody(requests).JArr? && |CanonicalBody(requests).items| == |requests|
              && forall i :: 0 <= i < |requests| ==> CanonicalBody(requests).items[i] == Print(requests[i])
  {
  }
}
