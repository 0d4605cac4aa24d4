/** The server's hello codec (chat-server/src/hello_codec.cpp). */
module HelloServer {
  import opened Bytes
  import opened Identifiers
  import opened Capabilities
  import opened Hello

  // What the server requires of the data object.
  predicate IsRequestData(o: map<string, Json>) {
    && HasText(o, "client_version", MAX_VERSION_BYTES)
    && HasText(o, "platform", MAX_PLATFORM_BYTES)
    && HasCapabilities(o)
  }

  predicate IsRequestRoot(root: map<string, Json>) {
    HasObject(root, "data") && IsRequestData(root["data"].fields)
  }

  // The code of the first stage that fails: size, syntax, root, request id.
  function ServerStageFault(t: Text): Option<ErrorCode> {
    if t.size > MAX_JSON_BYTES then Some(InvalidRequest)
    else if t.json.None? then Some(InvalidJson)
    else if !t.json.value.JObject? then Some(InvalidRequest)
    else if !HasRequestId(t.json.value.fields) then Some(InvalidRequestId)
    else None
  }

  // The outcome of decoding: the code of the first stage that fails, or the fields of the message.
  function RequestOf(t: Text): Outcome<HelloRequest> {
    if ServerStageFault(t).Some? then Err(ServerStageFault(t).value)
    else if !IsRequestRoot(t.json.value.fields) then Err(InvalidRequest)
    else
      var data := t.json.value.fields["data"].fields;
      Ok(HelloRequest(data["client_version"].s, data["platform"].s, StringsOf(data["capabilities"].items)))
  }

  method DecodeHelloRequest(text: Text, requestId: UuidId)
    returns (result: Outcome<HelloRequest>, outRequestId: UuidId)
    ensures result == RequestOf(text)
    ensures outRequestId == RequestIdAfter(text, requestId)
  {
    outRequestId := requestId;
    if text.size > MAX_JSON_BYTES {
      return Err(InvalidRequest), outRequestId;
    }
    if text.json.None? {
      return Err(InvalidJson), outRequestId;
    }
    var root := text.json.value;
    if !root.JObject? {
      return Err(InvalidRequest), outRequestId;
    }
    var obj := root.fields;
    if "request_id" !in obj || !obj["request_id"].JString? {
      return Err(InvalidRequestId), outRequestId;
    }
    var parsedId := ParseUuid(obj["request_id"].s);
    if parsedId.None? {
      return Err(InvalidRequestId), outRequestId;
    }
    outRequestId := parsedId.value;
    if "data" !in obj || !obj["data"].JObject? {
      return Err(InvalidRequest), outRequestId;
    }
    var data := obj["data"].fields;
    if "client_version" !in data || !data["client_version"].JString? {
      return Err(InvalidRequest), outRequestId;
    }
    var clientVersion := data["client_version"].s;
    if clientVersion == [] || |clientVersion| > MAX_VERSION_BYTES {
      return Err(InvalidRequest), outRequestId;
    }
    if "platform" !in data || !data["platform"].JString? {
      return Err(InvalidRequest), outRequestId;
    }
    var platform := data["platform"].s;
    if platform == [] || |platform| > MAX_PLATFORM_BYTES {
      return Err(InvalidRequest), outRequestId;
    }
    var capabilities := ReadCapabilities(data);
    if capabilities.None? {
      return Err(InvalidRequest), outRequestId;
    }
    return Ok(HelloRequest(clientVersion, platform, capabilities.value)), outRequestId;
  }

  ghost function ResponseData(r: HelloResponse): map<string, Json> {
    map[
      "server_version" := JString(r.serverVersion),
      "server_time" := JInt(r.serverTime),
      "max_json" := JInt(r.maxJson),
      "max_text" := JInt(r.maxText),
      "heartbeat_idle" := JInt(r.heartbeatIdle),
      "timeout" := JInt(r.timeout),
      "capabilities" := JArray(Strings(InOrder(r.capabilities)))]
  }

  // The response message: the data in the envelope with the echoed id and ok = true.
  ghost function ResponseJson(id: UuidId, r: HelloResponse): Json {
    JObject(map["request_id" := JString(id), "ok" := JBool(true), "data" := JObject(ResponseData(r))])
  }

  method EncodeHelloResponse(id: UuidId, response: HelloResponse) returns (root: Json)
    ensures root == ResponseJson(id, response)
  {
    var data: map<string, Json> := map[];
    data := data["server_version" := JString(response.serverVersion)];
    data := data["server_time" := JInt(response.serverTime)];
    data := data["max_json" := JInt(response.maxJson)];
    data := data["max_text" := JInt(response.maxText)];
    data := data["heartbeat_idle" := JInt(response.heartbeatIdle)];
    data := data["timeout" := JInt(response.timeout)];
    var caps := WalkCapabilities(response.capabilities);
    data := data["capabilities" := JArray(caps)];
    var fields: map<string, Json> := map[];
    fields := fields["request_id" := JString(id)];
    fields := fields["ok" := JBool(true)];
    fields := fields["data" := JObject(data)];
    return JObject(fields);
  }

  // The loop that appends the elements of a std::set to an array.
  method WalkCapabilities(capabilities: CapabilitySet) returns (caps: seq<Json>)
    ensures caps == Strings(InOrder(capabilities))
  {
    hide InOrder, Strings;
    caps := [];
    var rest := capabilities;
    while rest != {}
      invariant rest <= capabilities
      invariant Strings(InOrder(capabilities)) == caps + Strings(InOrder(rest))
      decreases rest
    {
      FirstExists(rest);
      var c :| IsFirst(c, rest);
      InOrderFrom(c, rest);
      StringsCons(c, InOrder(rest - {c}));
      caps := caps + [JString(c)];
      rest := rest - {c};
    }
    NothingToWalk();
  }

  lemma NothingToWalk()
    ensures Strings(InOrder({})) == []
  {}
}
