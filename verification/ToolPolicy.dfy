/** JSON-RPC requests and the tool-level policy that decides which of them may pass the bridge. */
module ToolPolicy {
  import opened Wrappers

  datatype Json =
    | Null
    | Boolean(b: bool)
    | Number(n: real)
    | Text(s: string)
    | Array(items: seq<Json>)
    | Object(fields: map<string, Json>)
  {
    function Get(key: string): Option<Json> {
      if Object? && key in fields then Some(fields[key]) else None
    }

    function GetText(key: string): Option<string> {
      match Get(key)
      case Some(Text(s)) => Some(s)
      case _ => None
    }
  }

  /** Tool name patterns; the pattern language itself is a parameter. */
  datatype McpToolPolicy = McpToolPolicy(allowedTools: seq<string>, deniedTools: seq<string>)

  /** Policies by server name. */
  type McpPolicyFile = map<string, McpToolPolicy>

  type Matcher = (string, string) -> bool

  predicate MatchesAny(matcher: Matcher, patterns: seq<string>, tool: string) {
    exists p <- patterns :: matcher(p, tool)
  }

  /** A deny pattern always wins; a non-empty allow list admits only what it lists. */
  predicate Allows(matcher: Matcher, policy: McpToolPolicy, tool: string) {
    if MatchesAny(matcher, policy.deniedTools, tool) then false
    else if policy.allowedTools != [] then MatchesAny(matcher, policy.allowedTools, tool)
    else true
  }

  /** A file without an entry for the server restricts nothing. */
  predicate FileAllows(matcher: Matcher, file: McpPolicyFile, server: string, tool: string) {
    server in file ==> Allows(matcher, file[server], tool)
  }

  /** A request body as the JSON parser delivers it: `None` if it is not JSON. */
  type Body = Option<Json>

  function ParseJsonRpcRequest(body: Body): Option<Json> {
    match body
    case None => None
    case Some(v) =>
      if v.GetText("jsonrpc") == Some("2.0") && v.GetText("method").Some? then Some(v) else None
  }

  predicate IsToolCall(request: Json) {
    request.GetText("method") == Some("tools/call")
  }

  function ExtractToolCallName(request: Json): Option<string> {
    if !IsToolCall(request) then None
    else
      match request.Get("params")
      case Some(params) => params.GetText("name")
      case None => None
  }

  // ---------------------------------------------------------------------------
  // What requests and policies say
  // ---------------------------------------------------------------------------

  /** The field of an object, or nothing. */
  predicate HasField(json: Json, key: string, value: Json) {
    json.Object? && key in json.fields && json.fields[key] == value
  }

  /** The request is a tool call. */
  predicate CallsTool(request: Json) {
    HasField(request, "method", Text("tools/call"))
  }

  /** The request is a call of the named tool. */
  ghost predicate Names(request: Json, tool: string) {
    && CallsTool(request)
    && exists params :: HasField(request, "params", params) && HasField(params, "name", Text(tool))
  }

  /** The body is a request: a JSON-RPC 2.0 object with a method. */
  ghost predicate IsRequest(json: Json) {
    HasField(json, "jsonrpc", Text("2.0")) && exists name :: HasField(json, "method", Text(name))
  }

  /** If the file has an entry for the server: no deny pattern matches the tool, and some allow pattern
      does, unless there are none. */
  ghost predicate Grants(matcher: Matcher, file: McpPolicyFile, server: string, tool: string) {
    server in file ==>
      && (forall k | 0 <= k < |file[server].deniedTools| :: !matcher(file[server].deniedTools[k], tool))
      && (file[server].allowedTools == []
          || exists k | 0 <= k < |file[server].allowedTools| :: matcher(file[server].allowedTools[k], tool))
  }

  lemma RequestsExactly(body: Body, request: Json, tool: string)
    ensures ParseJsonRpcRequest(body) == Some(request) <==> body == Some(request) && IsRequest(request)
    ensures IsToolCall(request) <==> CallsTool(request)
    ensures ExtractToolCallName(request) == Some(tool) <==> Names(request, tool)
  {
    if request.GetText("method").Some? {
      assert HasField(request, "method", Text(request.GetText("method").value));
    }
    if ExtractToolCallName(request) == Some(tool) {
      assert HasField(request, "params", request.fields["params"]);
    }
  }

  lemma GrantsExactly(matcher: Matcher, file: McpPolicyFile, server: string, tool: string)
    ensures FileAllows(matcher, file, server, tool) <==> Grants(matcher, file, server, tool)
  {
    if server in file {
      var denied, allowed := file[server].deniedTools, file[server].allowedTools;
      AnyOf(matcher, denied, tool);
      AnyOf(matcher, allowed, tool);
    }
  }

  lemma AnyOf(matcher: Matcher, patterns: seq<string>, tool: string)
    ensures MatchesAny(matcher, patterns, tool) <==> exists k | 0 <= k < |patterns| :: matcher(patterns[k], tool)
  {
    if p :| p in patterns && matcher(p, tool) {
      var k :| 0 <= k < |patterns| && patterns[k] == p;
    }
    if k :| 0 <= k < |patterns| && matcher(patterns[k], tool) {
      assert patterns[k] in patterns;
    }
  }
}
