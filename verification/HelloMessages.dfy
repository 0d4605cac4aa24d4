/** What a message says, written on its JSON value, and that the decoders read exactly that. */
module HelloMessages {
  import opened Bytes
  import opened Identifiers
  import opened Capabilities
  import opened Doubles
  import opened Hello
  import opened HelloServer
  import opened HelloClient
  import opened HelloReading

  // ---- Members of an object; other keys are free ----

  predicate Says(o: map<string, Json>, key: string, value: Json) { key in o && o[key] == value }

  // A string of 1 to limit octets.
  predicate SaysText(o: map<string, Json>, key: string, text: ByteString, limit: nat) {
    1 <= |text| <= limit && Says(o, key, JString(text))
  }

  // An integer from 0 to limit, written as an integer or as a double.
  predicate SaysNumber(o: map<string, Json>, key: string, n: int, limit: int) {
    0 <= n <= limit && (Says(o, key, JInt(n)) || Says(o, key, JDouble(n as real)))
  }

  // An array of at most 16 strings, which are those of the set: each at least once, in any order.
  predicate SaysSet(o: map<string, Json>, key: string, caps: CapabilitySet) {
    && key in o && o[key].JArray? && |o[key].items| <= 16
    && (forall item | item in o[key].items :: item.JString? && item.s in caps)
    && (forall c | c in caps :: 1 <= |c| <= 64 && JString(c) in o[key].items)
  }

  lemma ReadsText(o: map<string, Json>, key: string, text: ByteString, limit: nat)
    ensures HasText(o, key, limit) && o[key].s == text <==> SaysText(o, key, text, limit)
  {}

  lemma ReadsNumber(o: map<string, Json>, key: string, n: int, limit: int)
    requires 0 <= limit < TWO_53
    ensures HasWhole(o, key, limit as real) && WholeOf(o, key, limit as real) == n <==> SaysNumber(o, key, n, limit)
  {
    if key in o && o[key].JInt? {
      IntegerReadsBack(o, key, o[key].n, limit);
    }
    hide ToDouble;
  }

  lemma ReadsSet(o: map<string, Json>, caps: CapabilitySet)
    ensures HasCapabilities(o) && StringsOf(o["capabilities"].items) == caps <==> SaysSet(o, "capabilities", caps)
  {
    if "capabilities" in o && o["capabilities"].JArray? {
      var items := o["capabilities"].items;
      if HasCapabilities(o) && StringsOf(items) == caps {
        forall item | item in items
          ensures item.JString? && item.s in caps
        {
          assert IsCapability(item) && TextOf(item) in StringsOf(items);
        }
        forall c | c in caps
          ensures 1 <= |c| <= 64 && JString(c) in items
        {
          var item :| item in items && TextOf(item) == c;
          assert IsCapability(item) && item == JString(c);
        }
      }
      if SaysSet(o, "capabilities", caps) {
        assert forall i | 0 <= i < |items| :: items[i] in items && items[i] == JString(items[i].s);
        assert forall c | c in caps :: TextOf(JString(c)) == c;
        assert StringsOf(items) == caps;
      }
    }
  }

  // ---- Messages ----

  // A readable object that carries the request id, and the data object.
  predicate SaysEnvelope(t: Text, id: ByteString) {
    && t.size <= 65536 && t.json.Some? && t.json.value.JObject?
    && IsUuid(id) && Says(t.json.value.fields, "request_id", JString(id))
    && "data" in t.json.value.fields && t.json.value.fields["data"].JObject?
  }

  predicate SaysRequest(t: Text, id: ByteString, r: HelloRequest) {
    && SaysEnvelope(t, id)
    && var data := t.json.value.fields["data"].fields;
    && SaysText(data, "client_version", r.clientVersion, 32)
    && SaysText(data, "platform", r.platform, 16)
    && SaysSet(data, "capabilities", r.capabilities)
  }

  predicate SaysResponse(t: Text, id: ByteString, r: HelloResponse) {
    && SaysEnvelope(t, id)
    && Says(t.json.value.fields, "ok", JBool(true))
    && var data := t.json.value.fields["data"].fields;
    && SaysText(data, "server_version", r.serverVersion, 32)
    && SaysNumber(data, "server_time", r.serverTime, 9007199254740991)
    && SaysNumber(data, "max_json", r.maxJson, 4294967295)
    && SaysNumber(data, "max_text", r.maxText, 4294967295)
    && SaysNumber(data, "heartbeat_idle", r.heartbeatIdle, 4294967295)
    && SaysNumber(data, "timeout", r.timeout, 4294967295)
    && SaysSet(data, "capabilities", r.capabilities)
  }

  // The server accepts a message as id and request exactly when it says them.
  lemma RequestIsWhatItSays(t: Text, prior: UuidId, id: ByteString, r: HelloRequest)
    ensures RequestOf(t) == Ok(r) && RequestIdAfter(t, prior) == id <==> SaysRequest(t, id, r)
  {
    hide IsUuid, StringsOf, HasCapabilities, SaysSet;
    if t.json.Some? && t.json.value.JObject? && HasObject(t.json.value.fields, "data") {
      var data := t.json.value.fields["data"].fields;
      ReadsText(data, "client_version", r.clientVersion, 32);
      ReadsText(data, "platform", r.platform, 16);
      ReadsSet(data, r.capabilities);
      hide HasText, SaysText;
    }
  }

  lemma ResponseDataIsWhatItSays(data: map<string, Json>, r: HelloResponse)
    ensures IsResponseData(data) && ResponseFields(data) == r <==>
            && SaysText(data, "server_version", r.serverVersion, 32)
            && SaysNumber(data, "server_time", r.serverTime, 9007199254740991)
            && SaysNumber(data, "max_json", r.maxJson, 4294967295)
            && SaysNumber(data, "max_text", r.maxText, 4294967295)
            && SaysNumber(data, "heartbeat_idle", r.heartbeatIdle, 4294967295)
            && SaysNumber(data, "timeout", r.timeout, 4294967295)
            && SaysSet(data, "capabilities", r.capabilities)
  {
    hide StringsOf, HasCapabilities, SaysSet;
    ReadsText(data, "server_version", r.serverVersion, 32);
    ReadsNumber(data, "server_time", r.serverTime, 9007199254740991);
    ReadsNumber(data, "max_json", r.maxJson, 4294967295);
    ReadsNumber(data, "max_text", r.maxText, 4294967295);
    ReadsNumber(data, "heartbeat_idle", r.heartbeatIdle, 4294967295);
    ReadsNumber(data, "timeout", r.timeout, 4294967295);
    ReadsSet(data, r.capabilities);
    hide HasText, SaysText, HasWhole, WholeOf, SaysNumber;
  }

  // The client accepts a message as id and response exactly when it says them, with ok = true.
  lemma ResponseIsWhatItSays(t: Text, prior: UuidId, id: ByteString, r: HelloResponse)
    ensures ResponseOf(t) == Ok(r) && RequestIdAfter(t, prior) == id <==> SaysResponse(t, id, r)
  {
    hide IsUuid, IsResponseData, ResponseFields, SaysText, SaysNumber, SaysSet;
    if t.json.Some? && t.json.value.JObject? && HasObject(t.json.value.fields, "data") {
      ResponseDataIsWhatItSays(t.json.value.fields["data"].fields, r);
    }
  }

  // A message is accepted exactly when it says something.
  lemma AcceptedSays(t: Text)
    ensures RequestOf(t).Ok? <==> exists id, r :: SaysRequest(t, id, r)
    ensures ResponseOf(t).Ok? <==> exists id, r :: SaysResponse(t, id, r)
  {
    hide RequestOf, ResponseOf, RequestIdAfter, SaysRequest, SaysResponse;
    var id := RequestIdAfter(t, []);
    if RequestOf(t).Ok? {
      RequestIsWhatItSays(t, [], id, RequestOf(t).value);
    }
    if ResponseOf(t).Ok? {
      ResponseIsWhatItSays(t, [], id, ResponseOf(t).value);
    }
    if id, r :| SaysRequest(t, id, r) {
      RequestIsWhatItSays(t, [], id, r);
    }
    if id, r :| SaysResponse(t, id, r) {
      ResponseIsWhatItSays(t, [], id, r);
    }
  }

  ghost predicate SaysSomeId(root: map<string, Json>) {
    exists id :: IsUuid(id) && Says(root, "request_id", JString(id))
  }

  lemma IdIsSaid(root: map<string, Json>)
    ensures HasRequestId(root) <==> SaysSomeId(root)
  {
    hide IsUuid;
    if HasRequestId(root) {
      assert Says(root, "request_id", JString(root["request_id"].s));
    }
  }

  // ---- Encoders ----

  // Each element of the set once, in ascending order, as strings.
  predicate ListsInOrder(items: seq<Json>, caps: CapabilitySet) {
    && (forall item | item in items :: item.JString? && item.s in caps)
    && (forall c | c in caps :: JString(c) in items)
    && forall i, j | 0 <= i < j < |items| :: Less(TextOf(items[i]), TextOf(items[j]))
  }

  lemma StringsListInOrder(caps: CapabilitySet)
    ensures ListsInOrder(Strings(InOrder(caps)), caps)
  {
    InOrderMeaning(caps);
    StringsHoldTheSet(caps);
    hide InOrder, Less;
  }

  // The server's message says the id, ok and the response, all numbers as integers and the
  // capabilities in ascending order without repetition, and has no other key.
  lemma EncodedResponseSays(id: UuidId, r: HelloResponse)
    ensures var json := ResponseJson(id, r);
            && json.JObject? && json.fields.Keys == {"request_id", "ok", "data"}
            && Says(json.fields, "request_id", JString(id)) && Says(json.fields, "ok", JBool(true))
            && json.fields["data"].JObject?
    ensures var data := ResponseJson(id, r).fields["data"].fields;
            && data.Keys == {"server_version", "server_time", "max_json", "max_text", "heartbeat_idle", "timeout",
                             "capabilities"}
            && Says(data, "server_version", JString(r.serverVersion)) && Says(data, "server_time", JInt(r.serverTime))
            && Says(data, "max_json", JInt(r.maxJson)) && Says(data, "max_text", JInt(r.maxText))
            && Says(data, "heartbeat_idle", JInt(r.heartbeatIdle)) && Says(data, "timeout", JInt(r.timeout))
            && data["capabilities"].JArray?
            && ListsInOrder(data["capabilities"].items, r.capabilities)
  {
    StringsListInOrder(r.capabilities);
    hide InOrder, Strings, ListsInOrder;
  }

  // The client's message for plain fields says the id and the request, and has no other key.
  lemma EncodedRequestSays(id: UuidId, r: HelloRequest, lossy: ByteString -> ByteString)
    requires IsPlain(r.clientVersion) && IsPlain(r.platform) && forall c | c in r.capabilities :: IsPlain(c)
    ensures var json := RequestJson(id, r, lossy);
            && json.JObject? && json.fields.Keys == {"request_id", "data"}
            && Says(json.fields, "request_id", JString(id))
            && json.fields["data"].JObject?
    ensures var data := RequestJson(id, r, lossy).fields["data"].fields;
            && data.Keys == {"client_version", "platform", "capabilities"}
            && Says(data, "client_version", JString(r.clientVersion)) && Says(data, "platform", JString(r.platform))
            && data["capabilities"].JArray?
            && ListsInOrder(data["capabilities"].items, r.capabilities)
  {
    IdIsPlain(id);
    InOrderMeaning(r.capabilities);
    StringsListInOrder(r.capabilities);
    hide IsPlain, InOrder, ListsInOrder;
    var walk := InOrder(r.capabilities);
    assert QtStrings(walk, lossy) == Strings(walk) by {
      forall i | 0 <= i < |walk|
        ensures QtText(walk[i], lossy) == walk[i]
      {
        assert walk[i] in r.capabilities;
      }
    }
  }
}
