/** The hello messages (hello.hpp) and the JSON values that carry them. */
module Hello {
  import opened Bytes
  import opened Utf8
  import opened Identifiers
  import opened Capabilities
  import opened Doubles

  const MAX_JSON_BYTES: nat := 65536
  const MAX_VERSION_BYTES: nat := 32
  const MAX_PLATFORM_BYTES: nat := 16
  const MAX_CAPABILITY_BYTES: nat := 64
  const MAX_CAPABILITY_COUNT: nat := 16

  type Uint32 = n: int | 0 <= n < 0x1_0000_0000
  type Int64 = n: int | -0x8000_0000_0000_0000 <= n < 0x8000_0000_0000_0000

  datatype HelloRequest = HelloRequest(clientVersion: ByteString, platform: ByteString, capabilities: CapabilitySet)

  datatype HelloResponse = HelloResponse(
    serverVersion: ByteString,
    serverTime: Int64,
    maxJson: Uint32,
    maxText: Uint32,
    heartbeatIdle: Uint32,
    timeout: Uint32,
    capabilities: CapabilitySet)

  // The parameters the server sends (20 s idle heartbeat, 60 s session timeout), and "1.0".
  const DEFAULT_RESPONSE: HelloResponse := HelloResponse([0x31, DOT, 0x30], 0, 65536, 4096, 20000, 60000, {})

  datatype ErrorCode = InvalidJson | InvalidRequestId | InvalidRequest

  datatype Outcome<+T> = Ok(value: T) | Err(code: ErrorCode)

  // ---- JSON ----

  // Integers that fit 64 bits keep their value; other numbers are doubles.
  datatype Json =
    | JNull
    | JBool(b: bool)
    | JInt(n: int)
    | JDouble(d: real)
    | JString(s: ByteString)
    | JArray(items: seq<Json>)
    | JObject(fields: map<string, Json>)

  // A message body: its size in bytes, and its value unless it is not valid JSON.
  datatype Text = Text(size: nat, json: Option<Json>)

  // JSON text is UTF-8 (section 8.1 of RFC 8259), so it can carry a value only if all strings are.
  ghost predicate AllUtf8(j: Json) {
    match j
    case JString(s) => IsUtf8(s)
    case JArray(items) => forall item | item in items :: AllUtf8(item)
    case JObject(fields) => forall k | k in fields :: AllUtf8(fields[k])
    case _ => true
  }

  // What the peer's parser makes of a serialised value of the given size.
  ghost function Transmit(j: Json, size: nat): Text {
    Text(size, if AllUtf8(j) then Some(j) else None)
  }

  // ---- Field bounds ----

  predicate TextWithin(s: ByteString, limit: nat) { 1 <= |s| <= limit }

  ghost predicate CapabilitiesInBounds(caps: CapabilitySet) {
    && |caps| <= MAX_CAPABILITY_COUNT
    && forall c | c in caps :: TextWithin(c, MAX_CAPABILITY_BYTES) && IsUtf8(c)
  }

  ghost predicate RequestInBounds(r: HelloRequest) {
    && TextWithin(r.clientVersion, MAX_VERSION_BYTES) && IsUtf8(r.clientVersion)
    && TextWithin(r.platform, MAX_PLATFORM_BYTES) && IsUtf8(r.platform)
    && CapabilitiesInBounds(r.capabilities)
  }

  // The server time must be a non-negative integer that a double holds exactly.
  ghost predicate ResponseInBounds(r: HelloResponse) {
    && TextWithin(r.serverVersion, MAX_VERSION_BYTES) && IsUtf8(r.serverVersion)
    && 0 <= r.serverTime < TWO_53
    && CapabilitiesInBounds(r.capabilities)
  }

  // ---- Reading fields, alike on both ends ----

  predicate HasText(o: map<string, Json>, key: string, limit: nat) {
    key in o && o[key].JString? && TextWithin(o[key].s, limit)
  }

  predicate HasRequestId(o: map<string, Json>) {
    "request_id" in o && o["request_id"].JString? && IsUuid(o["request_id"].s)
  }

  predicate IsCapability(j: Json) { j.JString? && TextWithin(j.s, MAX_CAPABILITY_BYTES) }

  // The count is that of the array, before duplicates collapse.
  predicate HasCapabilities(o: map<string, Json>) {
    && "capabilities" in o && o["capabilities"].JArray?
    && |o["capabilities"].items| <= MAX_CAPABILITY_COUNT
    && forall i | 0 <= i < |o["capabilities"].items| :: IsCapability(o["capabilities"].items[i])
  }

  function StringsOf(items: seq<Json>): CapabilitySet {
    set item | item in items :: TextOf(item)
  }

  function TextOf(j: Json): ByteString { if j.JString? then j.s else [] }

  lemma StringsOfMore(items: seq<Json>, i: nat)
    requires i < |items|
    ensures StringsOf(items[..i + 1]) == StringsOf(items[..i]) + {TextOf(items[i])}
  {
    assert items[..i + 1] == items[..i] + [items[i]];
  }

  // The capabilities array, read by the same loop on both ends.
  method ReadCapabilities(data: map<string, Json>) returns (r: Option<CapabilitySet>)
    ensures r == if HasCapabilities(data) then Some(StringsOf(data["capabilities"].items)) else None
  {
    if "capabilities" !in data || !data["capabilities"].JArray? {
      return None;
    }
    var items := data["capabilities"].items;
    if |items| > MAX_CAPABILITY_COUNT {
      return None;
    }
    var capabilities: CapabilitySet := {};
    for i := 0 to |items|
      invariant forall j | 0 <= j < i :: IsCapability(items[j])
      invariant capabilities == StringsOf(items[..i])
    {
      if !items[i].JString? {
        return None;
      }
      var c := items[i].s;
      if c == [] || |c| > MAX_CAPABILITY_BYTES {
        return None;
      }
      StringsOfMore(items, i);
      capabilities := capabilities + {c};
    }
    assert items[..|items|] == items;
    return Some(capabilities);
  }

  // What both decoders want before they look at other fields: size, syntax, root, request id.
  predicate IdStagePassed(t: Text) {
    t.size <= MAX_JSON_BYTES && t.json.Some? && t.json.value.JObject? && HasRequestId(t.json.value.fields)
  }

  // The request id after decoding: the message's own once it has been accepted, else what it was.
  function RequestIdAfter(t: Text, prior: UuidId): UuidId {
    if IdStagePassed(t) then t.json.value.fields["request_id"].s else prior
  }

  // A value that is neither an object nor an array.
  predicate IsScalar(j: Json) { !j.JObject? && !j.JArray? }

  predicate HasObject(o: map<string, Json>, key: string) { key in o && o[key].JObject? }

  // ---- Writing fields ----

  function Strings(ss: seq<ByteString>): seq<Json> {
    seq(|ss|, i requires 0 <= i < |ss| => JString(ss[i]))
  }

  lemma StringsCons(s: ByteString, ss: seq<ByteString>)
    ensures Strings([s] + ss) == [JString(s)] + Strings(ss)
  {}

  // The array written for a set holds its elements, each once.
  lemma StringsHoldTheSet(caps: CapabilitySet)
    ensures var items := Strings(InOrder(caps));
            && |items| == |caps|
            && (forall c | c in caps :: JString(c) in items)
            && (forall item | item in items :: item.JString? && item.s in caps)
  {
    InOrderMeaning(caps);
    var walk := InOrder(caps);
    var items := Strings(walk);
    hide InOrder;
    forall c | c in caps
      ensures JString(c) in items
    {
      assert c in walk;
      var i :| 0 <= i < |walk| && walk[i] == c;
      assert items[i] == JString(c);
    }
    forall item | item in items
      ensures item.JString? && item.s in caps
    {
      var i :| 0 <= i < |items| && items[i] == item;
      assert walk[i] in walk;
    }
  }

  // So it reads back as the set, passes the bounds when the elements do, and is UTF-8 when they are.
  lemma StringsReadBack(caps: CapabilitySet)
    ensures var items := Strings(InOrder(caps));
            && StringsOf(items) == caps
            && ((forall i | 0 <= i < |items| :: IsCapability(items[i])) <==>
                forall c | c in caps :: TextWithin(c, MAX_CAPABILITY_BYTES))
            && (AllUtf8(JArray(items)) <==> forall c | c in caps :: IsUtf8(c))
  {
    StringsHoldTheSet(caps);
    var items := Strings(InOrder(caps));
    hide IsUtf8, InOrder, Strings;
    assert forall c | c in caps :: TextOf(JString(c)) == c;
    forall c | c in caps
      ensures AllUtf8(JString(c)) <==> IsUtf8(c)
      ensures IsCapability(JString(c)) <==> TextWithin(c, MAX_CAPABILITY_BYTES)
    {
    }
    assert forall i | 0 <= i < |items| :: items[i] in items;
  }
}
