/** The client's hello codec (client-qt/src/hello_codec.cpp). */
module HelloClient {
  import opened Bytes
  import opened Utf8
  import opened Identifiers
  import opened Capabilities
  import opened Doubles
  import opened Hello
  import opened HelloServer

  // U+FEFF, the byte order mark.
  const MARK: ByteString := [0xEF, 0xBB, 0xBF]

  // UTF-8 text that does not start with a byte order mark.
  ghost predicate IsPlain(s: ByteString) { IsUtf8(s) && !(MARK <= s) }

  // What QString makes of octets. Plain text is kept. Qt's conversions may take a leading mark off
  // and replace octets that are not UTF-8; what becomes of such a string is left open as lossy.
  ghost function QtText(s: ByteString, lossy: ByteString -> ByteString): ByteString {
    if IsPlain(s) then s else lossy(s)
  }

  // QString::fromStdString
  method ToQString(s: ByteString, lossy: ByteString -> ByteString) returns (t: ByteString)
    ensures t == QtText(s, lossy)
  {
    var valid := IsValidUtf8(s);
    return if valid && !(MARK <= s) then s else lossy(s);
  }

  ghost function QtStrings(ss: seq<ByteString>, lossy: ByteString -> ByteString): seq<Json> {
    seq(|ss|, i requires 0 <= i < |ss| => JString(QtText(ss[i], lossy)))
  }

  ghost function RequestData(r: HelloRequest, lossy: ByteString -> ByteString): map<string, Json> {
    map[
      "client_version" := JString(QtText(r.clientVersion, lossy)),
      "platform" := JString(QtText(r.platform, lossy)),
      "capabilities" := JArray(QtStrings(InOrder(r.capabilities), lossy))]
  }

  ghost function RequestJson(id: UuidId, r: HelloRequest, lossy: ByteString -> ByteString): Json {
    JObject(map["request_id" := JString(QtText(id, lossy)), "data" := JObject(RequestData(r, lossy))])
  }

  // encodeHelloRequest never reports an error: the fields are not checked.
  ghost function EncodedRequest(id: UuidId, r: HelloRequest, lossy: ByteString -> ByteString): Outcome<Json> {
    Ok(RequestJson(id, r, lossy))
  }

  method EncodeHelloRequest(id: UuidId, request: HelloRequest, lossy: ByteString -> ByteString)
    returns (result: Outcome<Json>)
    ensures result == EncodedRequest(id, request, lossy)
  {
    var data: map<string, Json> := map[];
    var clientVersion := ToQString(request.clientVersion, lossy);
    data := data["client_version" := JString(clientVersion)];
    var platform := ToQString(request.platform, lossy);
    data := data["platform" := JString(platform)];
    var caps := AppendCapabilities(request.capabilities, lossy);
    data := data["capabilities" := JArray(caps)];
    var requestId := ToQString(id, lossy);
    var fields: map<string, Json> := map[];
    fields := fields["request_id" := JString(requestId)];
    fields := fields["data" := JObject(data)];
    return Ok(JObject(fields));
  }

  // The loop that appends the elements of a std::set to a QJsonArray.
  method AppendCapabilities(capabilities: CapabilitySet, lossy: ByteString -> ByteString) returns (caps: seq<Json>)
    ensures caps == QtStrings(InOrder(capabilities), lossy)
  {
    hide InOrder, QtStrings;
    caps := [];
    var rest := capabilities;
    while rest != {}
      invariant rest <= capabilities
      invariant QtStrings(InOrder(capabilities), lossy) == caps + QtStrings(InOrder(rest), lossy)
      decreases rest
    {
      FirstExists(rest);
      var c :| IsFirst(c, rest);
      InOrderFrom(c, rest);
      QtStringsCons(c, InOrder(rest - {c}), lossy);
      var text := ToQString(c, lossy);
      caps := caps + [JString(text)];
      rest := rest - {c};
    }
    NothingToAppend(lossy);
  }

  lemma NothingToAppend(lossy: ByteString -> ByteString)
    ensures QtStrings(InOrder({}), lossy) == []
  {}

  lemma QtStringsCons(s: ByteString, ss: seq<ByteString>, lossy: ByteString -> ByteString)
    ensures QtStrings([s] + ss, lossy) == [JString(QtText(s, lossy))] + QtStrings(ss, lossy)
  {}

  // The value that QJsonDocument delivers for a parsed body: its strings have become QStrings.
  ghost function QtJson(j: Json, lossy: ByteString -> ByteString): Json {
    match j
    case JString(s) => JString(QtText(s, lossy))
    case JArray(items) => JArray(seq(|items|, i requires 0 <= i < |items| => QtJson(items[i], lossy)))
    case JObject(fields) => JObject(map k | k in fields :: QtJson(fields[k], lossy))
    case _ => j
  }

  // A body as the client's parser delivers it.
  ghost function Deliver(t: Text, lossy: ByteString -> ByteString): Text {
    Text(t.size, if t.json.Some? then Some(QtJson(t.json.value, lossy)) else None)
  }

  // QJsonValue::isDouble and toDouble: every JSON number is read as a double.
  predicate IsNumber(j: Json) { j.JInt? || j.JDouble? }

  function NumberOf(j: Json): real
    requires IsNumber(j)
  {
    if j.JInt? then ToDouble(j.n) else j.d
  }

  // A whole number between 0 and limit, as tested on the double.
  predicate HasWhole(o: map<string, Json>, key: string, limit: real) {
    && key in o && IsNumber(o[key])
    && var d := NumberOf(o[key]);
       0.0 <= d <= limit && d.Floor as real == d
  }

  // The number of a JSON value is the integer n.
  ghost predicate Denotes(j: Json, n: int) { IsNumber(j) && NumberOf(j) == n as real }

  // The test on the double is exact: the field is present and denotes an integer from 0 to limit,
  // which is the one read.
  lemma WholeMeaning(o: map<string, Json>, key: string, limit: int)
    ensures HasWhole(o, key, limit as real) <==> key in o && exists n :: 0 <= n <= limit && Denotes(o[key], n)
    ensures HasWhole(o, key, limit as real) ==> Denotes(o[key], WholeOf(o, key, limit as real))
  {
    hide ToDouble;
    if HasWhole(o, key, limit as real) {
      assert Denotes(o[key], NumberOf(o[key]).Floor);
    }
  }

  lemma Uint32Meaning(o: map<string, Json>, key: string)
    ensures HasWhole(o, key, MAX_UINT32) <==> key in o && exists n: Uint32 :: Denotes(o[key], n)
    ensures HasWhole(o, key, MAX_UINT32) ==> forall n :: Denotes(o[key], n) ==> n == WholeOf(o, key, MAX_UINT32)
  {
    hide ToDouble;
    WholeMeaning(o, key, 0xFFFF_FFFF);
    if key in o {
      assert forall n: Uint32 :: Denotes(o[key], n) ==> 0 <= n <= 0xFFFF_FFFF;
    }
    if HasWhole(o, key, MAX_UINT32) {
      var n: Uint32 := WholeOf(o, key, MAX_UINT32);
      assert Denotes(o[key], n);
    }
  }

  const MAX_SAFE_INTEGER: real := 9007199254740991.0
  const MAX_UINT32: real := 4294967295.0

  function WholeOf(o: map<string, Json>, key: string, limit: real): int
    requires HasWhole(o, key, limit)
  {
    NumberOf(o[key]).Floor
  }

  // What the client requires of the data object.
  predicate IsResponseData(o: map<string, Json>) {
    && HasText(o, "server_version", MAX_VERSION_BYTES)
    && HasWhole(o, "server_time", MAX_SAFE_INTEGER)
    && HasWhole(o, "max_json", MAX_UINT32)
    && HasWhole(o, "max_text", MAX_UINT32)
    && HasWhole(o, "heartbeat_idle", MAX_UINT32)
    && HasWhole(o, "timeout", MAX_UINT32)
    && HasCapabilities(o)
  }

  predicate IsResponseRoot(root: map<string, Json>) {
    && "ok" in root && root["ok"] == JBool(true)
    && HasObject(root, "data") && IsResponseData(root["data"].fields)
  }

  function ResponseFields(o: map<string, Json>): HelloResponse
    requires IsResponseData(o)
  {
    HelloResponse(
      o["server_version"].s,
      WholeOf(o, "server_time", MAX_SAFE_INTEGER),
      WholeOf(o, "max_json", MAX_UINT32),
      WholeOf(o, "max_text", MAX_UINT32),
      WholeOf(o, "heartbeat_idle", MAX_UINT32),
      WholeOf(o, "timeout", MAX_UINT32),
      StringsOf(o["capabilities"].items))
  }

  // The code of the first stage that fails. A QJsonDocument holds an object or an array, so a scalar
  // body counts as a syntax error.
  function ClientStageFault(t: Text): Option<ErrorCode> {
    if t.size > MAX_JSON_BYTES then Some(InvalidRequest)
    else if t.json.None? || IsScalar(t.json.value) then Some(InvalidJson)
    else if !t.json.value.JObject? then Some(InvalidRequest)
    else if !HasRequestId(t.json.value.fields) then Some(InvalidRequestId)
    else None
  }

  function ResponseOf(t: Text): Outcome<HelloResponse> {
    if ClientStageFault(t).Some? then Err(ClientStageFault(t).value)
    else if !IsResponseRoot(t.json.value.fields) then Err(InvalidRequest)
    else Ok(ResponseFields(t.json.value.fields["data"].fields))
  }

  // The read_uint32 lambda: a target is written only when the field is fit.
  method ReadUint32(data: map<string, Json>, key: string, target: Uint32) returns (fit: bool, newTarget: Uint32)
    ensures fit <==> key in data && exists n: Uint32 :: Denotes(data[key], n)
    ensures if fit then Denotes(data[key], newTarget) else newTarget == target
  {
    hide ToDouble;
    if key !in data || !IsNumber(data[key]) {
      return false, target;
    }
    var d := NumberOf(data[key]);
    if d < 0.0 || d > 4294967295.0 || d.Floor as real != d {
      return false, target;
    }
    newTarget := d.Floor;
    assert Denotes(data[key], newTarget);
    return true, newTarget;
  }

  method DecodeHelloResponse(text: Text, requestId: UuidId)
    returns (result: Outcome<HelloResponse>, outRequestId: UuidId)
    ensures result == ResponseOf(text)
    ensures outRequestId == RequestIdAfter(text, requestId)
  {
    hide ToDouble, IsUuid, StringsOf, Denotes;
    outRequestId := requestId;
    if text.size > MAX_JSON_BYTES {
      return Err(InvalidRequest), outRequestId;
    }
    if text.json.None? || IsScalar(text.json.value) {
      return Err(InvalidJson), outRequestId;
    }
    if !text.json.value.JObject? {
      return Err(InvalidRequest), outRequestId;
    }
    var root := text.json.value.fields;
    if "request_id" !in root || !root["request_id"].JString? {
      return Err(InvalidRequestId), outRequestId;
    }
    var parsedId := ParseUuid(root["request_id"].s);
    if parsedId.None? {
      return Err(InvalidRequestId), outRequestId;
    }
    outRequestId := parsedId.value;
    if "ok" !in root || !root["ok"].JBool? || !root["ok"].b {
      return Err(InvalidRequest), outRequestId;
    }
    if "data" !in root || !root["data"].JObject? {
      return Err(InvalidRequest), outRequestId;
    }
    var data := root["data"].fields;
    if "server_version" !in data || !data["server_version"].JString? {
      return Err(InvalidRequest), outRequestId;
    }
    var version := data["server_version"].s;
    if version == [] || |version| > MAX_VERSION_BYTES {
      return Err(InvalidRequest), outRequestId;
    }
    var out := DEFAULT_RESPONSE.(serverVersion := version);
    if "server_time" !in data || !IsNumber(data["server_time"]) {
      return Err(InvalidRequest), outRequestId;
    }
    var time := NumberOf(data["server_time"]);
    if time < 0.0 || time > MAX_SAFE_INTEGER || time.Floor as real != time {
      return Err(InvalidRequest), outRequestId;
    }
    out := out.(serverTime := time.Floor);
    Uint32Meaning(data, "max_json");
    Uint32Meaning(data, "max_text");
    Uint32Meaning(data, "heartbeat_idle");
    Uint32Meaning(data, "timeout");
    var fit, maxJson := ReadUint32(data, "max_json", out.maxJson);
    if !fit {
      return Err(InvalidRequest), outRequestId;
    }
    var maxText, heartbeatIdle, timeout;
    fit, maxText := ReadUint32(data, "max_text", out.maxText);
    if !fit {
      return Err(InvalidRequest), outRequestId;
    }
    fit, heartbeatIdle := ReadUint32(data, "heartbeat_idle", out.heartbeatIdle);
    if !fit {
      return Err(InvalidRequest), outRequestId;
    }
    fit, timeout := ReadUint32(data, "timeout", out.timeout);
    if !fit {
      return Err(InvalidRequest), outRequestId;
    }
    out := out.(maxJson := maxJson, maxText := maxText, heartbeatIdle := heartbeatIdle, timeout := timeout);
    var capabilities := ReadCapabilities(data);
    if capabilities.None? {
      return Err(InvalidRequest), outRequestId;
    }
    return Ok(out.(capabilities := capabilities.value)), outRequestId;
  }
}
