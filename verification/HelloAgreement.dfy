/** The two hello codecs agree, although they were written independently. */
module HelloAgreement {
  import opened Bytes
  import opened Utf8
  import opened Identifiers
  import opened Capabilities
  import opened Doubles
  import opened Hello
  import opened HelloServer
  import opened HelloClient
  import opened HelloReading
  import opened HelloMessages

  // ---- Requests ----

  // Whatever the server accepts is within all field limits; duplicates in the array were counted,
  // so the set can only be smaller.
  lemma AcceptedRequestInBounds(t: Text)
    requires RequestOf(t).Ok? && AllUtf8(t.json.value)
    ensures RequestInBounds(RequestOf(t).value)
  {
    hide IsUtf8, IsUuid, StringsOf;
    var data := t.json.value.fields["data"];
    assert AllUtf8(data);
    assert AllUtf8(data.fields["client_version"]) && AllUtf8(data.fields["platform"]);
    AcceptedCapabilities(data.fields);
  }

  // A request as it is after QString has read its fields.
  ghost function Kept(r: HelloRequest, lossy: ByteString -> ByteString): HelloRequest {
    HelloRequest(QtText(r.clientVersion, lossy), QtText(r.platform, lossy), KeptSet(r.capabilities, lossy))
  }

  // The kept fields are within the limits; capabilities count before any of them coincide.
  ghost predicate KeptInBounds(r: HelloRequest, lossy: ByteString -> ByteString) {
    && Fits(QtText(r.clientVersion, lossy), MAX_VERSION_BYTES)
    && Fits(QtText(r.platform, lossy), MAX_PLATFORM_BYTES)
    && |r.capabilities| <= MAX_CAPABILITY_COUNT
    && forall c | c in r.capabilities :: Fits(QtText(c, lossy), MAX_CAPABILITY_BYTES)
  }

  ghost predicate FieldsUtf8(r: HelloRequest) {
    IsUtf8(r.clientVersion) && IsUtf8(r.platform) && forall c | c in r.capabilities :: IsUtf8(c)
  }

  // No field starts with a byte order mark.
  ghost predicate FieldsUnmarked(r: HelloRequest) {
    !(MARK <= r.clientVersion) && !(MARK <= r.platform) && NoMarkIn(r.capabilities)
  }

  lemma RequestDataReadsBack(r: HelloRequest, lossy: ByteString -> ByteString)
    ensures var o := RequestData(r, lossy);
            && (IsRequestData(o) && AllUtf8(JObject(o)) <==> KeptInBounds(r, lossy))
            && StringsOf(o["capabilities"].items) == KeptSet(r.capabilities, lossy)
  {
    QtStringsHoldTheSet(r.capabilities, lossy);
    QtStringsReadBack(r.capabilities, lossy);
    hide IsUtf8, InOrder, QtStrings, QtText, StringsOf, KeptSet;
    var o := RequestData(r, lossy);
    assert AllUtf8(JObject(o)) <==>
           AllUtf8(o["client_version"]) && AllUtf8(o["platform"]) && AllUtf8(o["capabilities"]);
  }

  lemma RequestEnvelopeUtf8(id: UuidId, r: HelloRequest, lossy: ByteString -> ByteString)
    ensures RequestJson(id, r, lossy) ==
            JObject(map["request_id" := JString(id), "data" := JObject(RequestData(r, lossy))])
    ensures AllUtf8(RequestJson(id, r, lossy)) <==> AllUtf8(JObject(RequestData(r, lossy)))
  {
    IdIsPlain(id);
    hide IsUtf8, RequestData;
    var root := RequestJson(id, r, lossy).fields;
    assert root["data"] == JObject(RequestData(r, lossy)) && AllUtf8(root["request_id"]);
  }

  // What the server makes of any request the client encodes: it accepts exactly when there is an id
  // and the kept fields are within the limits, and then it has the id and the kept request.
  lemma RequestAcceptance(id: UuidId, r: HelloRequest, lossy: ByteString -> ByteString, size: nat, prior: UuidId)
    requires KeptInBounds(r, lossy) ==> size <= MAX_JSON_BYTES
    ensures var t := Transmit(RequestJson(id, r, lossy), size);
            && (RequestOf(t).Ok? <==> id != [] && KeptInBounds(r, lossy))
            && (RequestOf(t).Ok? ==> RequestOf(t).value == Kept(r, lossy) && RequestIdAfter(t, prior) == id)
  {
    RequestEnvelopeUtf8(id, r, lossy);
    RequestDataReadsBack(r, lossy);
    hide IsUtf8, AllUtf8, RequestJson, StringsOf, KeptSet, KeptInBounds, IsRequestData, QtText, QtStrings, InOrder;
  }

  // Plain fields are kept.
  lemma KeptIfPlain(r: HelloRequest, lossy: ByteString -> ByteString)
    requires FieldsUtf8(r) && FieldsUnmarked(r)
    ensures Kept(r, lossy) == r
  {
    hide IsUtf8;
    assert forall c | c in r.capabilities :: QtText(c, lossy) == c;
  }

  // For a request that QString does not change, the limits before and after are the same.
  lemma UnchangedBounds(r: HelloRequest, lossy: ByteString -> ByteString)
    requires Kept(r, lossy) == r
    ensures KeptInBounds(r, lossy) <==> RequestInBounds(r)
  {
    UnchangedSetLimits(r.capabilities, lossy, MAX_CAPABILITY_BYTES);
    hide IsUtf8, QtText, KeptSet, TextWithin;
  }

  // When marks are dropped, QString leaves a request within the limits alone exactly when no field
  // starts with one.
  lemma UnchangedIffUnmarked(r: HelloRequest, lossy: ByteString -> ByteString)
    requires DropsMark(lossy) && RequestInBounds(r)
    ensures Kept(r, lossy) == r <==> FieldsUnmarked(r)
  {
    KeptSetIffUnmarked(r.capabilities, lossy);
    hide IsUtf8, KeptSet, NoMarkIn;
    assert |QtText(r.clientVersion, lossy)| == |r.clientVersion| <==> !(MARK <= r.clientVersion);
    assert |QtText(r.platform, lossy)| == |r.platform| <==> !(MARK <= r.platform);
  }

  // The server recovers id and request from the client's encoding exactly when there is an id, all
  // fields are within the limits, and QString keeps them: it does when they are plain, and if it
  // drops leading marks, only then.
  lemma RequestAgreement(id: UuidId, r: HelloRequest, lossy: ByteString -> ByteString, size: nat, prior: UuidId)
    requires RequestInBounds(r) ==> size <= MAX_JSON_BYTES
    ensures var t := Transmit(RequestJson(id, r, lossy), size);
            && (RequestOf(t) == Ok(r) <==> id != [] && RequestInBounds(r) && Kept(r, lossy) == r)
            && (RequestOf(t) == Ok(r) ==> RequestIdAfter(t, prior) == id)
    ensures RequestInBounds(r) && FieldsUnmarked(r) ==> Kept(r, lossy) == r
    ensures DropsMark(lossy) && RequestInBounds(r) && Kept(r, lossy) == r ==> FieldsUnmarked(r)
  {
    hide IsUtf8, KeptSet, RequestJson, DropsMark, NoMarkIn;
    if RequestInBounds(r) && FieldsUnmarked(r) {
      KeptIfPlain(r, lossy);
    }
    if DropsMark(lossy) && RequestInBounds(r) {
      UnchangedIffUnmarked(r, lossy);
    }
    if Kept(r, lossy) == r {
      UnchangedBounds(r, lossy);
    }
    hide FieldsUnmarked, RequestInBounds, KeptInBounds;
    if size <= MAX_JSON_BYTES {
      RequestAcceptance(id, r, lossy, size, prior);
    }
    hide Kept, AllUtf8;
  }

  // The server accepts a request other than the client's exactly when QString changed it and the
  // result is within the limits. If QString drops leading marks, it changed it exactly when a field
  // is not UTF-8 or starts with one.
  lemma RequestAltered(id: UuidId, r: HelloRequest, lossy: ByteString -> ByteString, size: nat)
    requires KeptInBounds(r, lossy) ==> size <= MAX_JSON_BYTES
    ensures var t := Transmit(RequestJson(id, r, lossy), size);
            RequestOf(t).Ok? && RequestOf(t).value != r <==> id != [] && KeptInBounds(r, lossy) && Kept(r, lossy) != r
    ensures DropsMark(lossy) && KeptInBounds(r, lossy) ==>
              (Kept(r, lossy) != r <==> !FieldsUtf8(r) || !FieldsUnmarked(r))
  {
    RequestAcceptance(id, r, lossy, size, []);
    hide RequestOf, Transmit, RequestJson, IsUtf8, KeptSet, DropsMark, NoMarkIn;
    if Kept(r, lossy) == r {
      UnchangedBounds(r, lossy);
      if DropsMark(lossy) && RequestInBounds(r) {
        UnchangedIffUnmarked(r, lossy);
      }
    } else if FieldsUtf8(r) && FieldsUnmarked(r) {
      KeptIfPlain(r, lossy);
    }
    hide Kept, FieldsUnmarked;
  }

  // The plan wants no frame when a local field is invalid. The encoder never refuses, so this holds
  // of a request exactly when none of its fields is (a remark: the content is in RequestAcceptance).
  ghost predicate RefusedIfInvalid(id: UuidId, r: HelloRequest, lossy: ByteString -> ByteString) {
    id == [] || !RequestInBounds(r) ==> EncodedRequest(id, r, lossy).Err?
  }

  lemma OnlyValidIsRefusedIfInvalid(id: UuidId, r: HelloRequest, lossy: ByteString -> ByteString)
    ensures RefusedIfInvalid(id, r, lossy) <==> id != [] && RequestInBounds(r)
  {}

  // A version that is not UTF-8 is sent, and accepted as another version when QString puts the
  // replacement character U+FFFD in its place; an empty version is sent and rejected.
  lemma InvalidRequestsAreSent(id: UuidId, lossy: ByteString -> ByteString, size: nat)
    requires id != [] && size <= MAX_JSON_BYTES && lossy([0xFF]) == [0xEF, 0xBF, 0xBD]
    ensures var r := HelloRequest([0xFF], [0x77], {});
            var root := EncodedRequest(id, r, lossy);
            && !RequestInBounds(r) && root.Ok?
            && RequestOf(Transmit(root.value, size)) == Ok(HelloRequest([0xEF, 0xBF, 0xBD], [0x77], {}))
    ensures var r := HelloRequest([], [0x77], {});
            var root := EncodedRequest(id, r, lossy);
            && !RequestInBounds(r) && root.Ok?
            && RequestOf(Transmit(root.value, size)) == Err(InvalidRequest)
  {
    SampleTexts();
    hide IsUtf8;
    var garbled := HelloRequest([0xFF], [0x77], {});
    RequestAcceptance(id, garbled, lossy, size, []);
    assert Kept(garbled, lossy) == HelloRequest([0xEF, 0xBF, 0xBD], [0x77], {});
    EmptyVersionRejected(id, lossy, size);
    hide RequestOf, Transmit, RequestJson;
  }

  lemma EmptyVersionRejected(id: UuidId, lossy: ByteString -> ByteString, size: nat)
    requires id != [] && size <= MAX_JSON_BYTES && IsUtf8([]) && IsUtf8([0x77])
    ensures RequestOf(Transmit(RequestJson(id, HelloRequest([], [0x77], {}), lossy), size)) == Err(InvalidRequest)
  {
    hide IsUtf8, StringsOf;
    var r := HelloRequest([], [0x77], {});
    RequestEnvelopeUtf8(id, r, lossy);
    NothingToAppend(lossy);
    hide IsUuid, RequestJson;
    var data := RequestData(r, lossy);
    assert data["capabilities"] == JArray([]);
    assert AllUtf8(JObject(data)) by {
      forall k | k in data ensures AllUtf8(data[k]) {}
    }
    hide AllUtf8;
  }

  // Octet FF starts no character; U+FFFD is written EF BF BD and U+FEFF is written EF BB BF.
  lemma SampleTexts()
    ensures !IsUtf8([0xFF]) && IsUtf8([0xEF, 0xBF, 0xBD]) && IsUtf8([0x77]) && IsUtf8([]) && IsUtf8([0x31])
    ensures IsUtf8(MARK + [0x31])
  {
    EmptyIsUtf8();
    AsciiIsUtf8([0x77]);
    AsciiIsUtf8([0x31]);
    Utf8Step([0xFF]);
    hide IsUtf8;
    ThreeOctetsThen(0xBF, 0xBD, []);
    ThreeOctetsThen(0xBB, 0xBF, [0x31]);
    assert [0xEF, 0xBF, 0xBD] + [] == [0xEF, 0xBF, 0xBD];
  }

  lemma ThreeOctetsThen(b1: Byte, b2: Byte, rest: ByteString)
    requires 0x80 <= b1 < 0xC0 && 0x80 <= b2 < 0xC0 && IsUtf8(rest)
    ensures IsUtf8([0xEF, b1, b2] + rest)
  {
    var s := [0xEF, b1, b2] + rest;
    Utf8Step(s);
    hide IsUtf8;
    assert s[3..] == rest;
  }

  // An accepted request survives being encoded by the client and decoded again exactly when QString
  // keeps it; it does when no field starts with a mark, and if it drops marks, only then.
  lemma RequestNormalisation(t: Text, prior: UuidId, lossy: ByteString -> ByteString, size: nat)
    requires RequestOf(t).Ok? && AllUtf8(t.json.value) && size <= MAX_JSON_BYTES
    ensures var (id, r) := (RequestIdAfter(t, prior), RequestOf(t).value);
            var again := Transmit(RequestJson(id, r, lossy), size);
            && (RequestOf(again) == RequestOf(t) <==> Kept(r, lossy) == r)
            && (RequestOf(again) == RequestOf(t) ==> RequestIdAfter(again, []) == id)
            && (FieldsUnmarked(r) ==> Kept(r, lossy) == r)
            && (DropsMark(lossy) && Kept(r, lossy) == r ==> FieldsUnmarked(r))
  {
    AcceptedRequestInBounds(t);
    RequestAgreement(RequestIdAfter(t, prior), RequestOf(t).value, lossy, size, []);
    hide IsUtf8, RequestInBounds, Transmit, RequestJson, Kept, FieldsUnmarked, DropsMark;
  }

  // A message that the server accepts with a marked version; sent again by a client whose QString
  // drops marks, it arrives with another version.
  lemma MarkIsLost(id: UuidId, lossy: ByteString -> ByteString, size: nat)
    requires id != [] && size <= MAX_JSON_BYTES && lossy(MARK + [0x31]) == [0x31]
    ensures var t := Text(size, Some(MarkedMessage(id)));
            && AllUtf8(t.json.value)
            && RequestOf(t) == Ok(HelloRequest(MARK + [0x31], [0x77], {}))
            && RequestOf(Transmit(RequestJson(id, RequestOf(t).value, lossy), size)) ==
               Ok(HelloRequest([0x31], [0x77], {}))
  {
    SampleTexts();
    MarkedMessageIsRead(id, size);
    hide IsUtf8;
    var r := HelloRequest(MARK + [0x31], [0x77], {});
    RequestAcceptance(id, r, lossy, size, []);
    assert Kept(r, lossy) == HelloRequest([0x31], [0x77], {});
    hide RequestOf, Transmit, RequestJson, AllUtf8;
  }

  function MarkedMessage(id: UuidId): Json {
    JObject(map[
      "request_id" := JString(id),
      "data" := JObject(map[
        "client_version" := JString(MARK + [0x31]), "platform" := JString([0x77]), "capabilities" := JArray([])])])
  }

  lemma MarkedMessageIsRead(id: UuidId, size: nat)
    requires id != [] && size <= MAX_JSON_BYTES
    ensures AllUtf8(MarkedMessage(id))
    ensures RequestOf(Text(size, Some(MarkedMessage(id)))) == Ok(HelloRequest(MARK + [0x31], [0x77], {}))
  {
    SampleTexts();
    IdIsUtf8(id);
    hide IsUtf8;
    var root := MarkedMessage(id).fields;
    var data := root["data"].fields;
    assert AllUtf8(root["data"]) by {
      forall k | k in data ensures AllUtf8(data[k]) {}
    }
    assert AllUtf8(MarkedMessage(id)) by {
      forall k | k in root ensures AllUtf8(root[k]) {}
    }
    hide AllUtf8, IsUuid;
    assert StringsOf([]) == {};
    assert HasRequestId(root) by { assert IsUuid(id); }
    hide StringsOf, HasRequestId;
  }

  // ---- Responses ----

  lemma AcceptedResponseInBounds(t: Text)
    requires ResponseOf(t).Ok? && AllUtf8(t.json.value)
    ensures ResponseInBounds(ResponseOf(t).value)
  {
    hide IsUtf8, IsUuid, StringsOf, ToDouble;
    var data := t.json.value.fields["data"];
    assert AllUtf8(data);
    assert AllUtf8(data.fields["server_version"]);
    AcceptedCapabilities(data.fields);
  }

  lemma ResponseJsonUtf8(id: UuidId, r: HelloResponse)
    ensures AllUtf8(ResponseJson(id, r)) <==>
            IsUtf8(r.serverVersion) && forall c | c in r.capabilities :: IsUtf8(c)
  {
    IdIsUtf8(id);
    StringsReadBack(r.capabilities);
    hide IsUtf8, IsUuid, InOrder, Strings;
    var data := JObject(ResponseData(r));
    assert AllUtf8(data.fields["server_version"]) <==> IsUtf8(r.serverVersion);
    assert AllUtf8(data) <==> AllUtf8(data.fields["server_version"]) && AllUtf8(data.fields["capabilities"]) by {
      forall k | k in data.fields && k != "server_version" && k != "capabilities"
        ensures AllUtf8(data.fields[k])
      {
      }
    }
    EnvelopeUtf8(id, data);
  }

  lemma EnvelopeUtf8(id: UuidId, data: Json)
    ensures AllUtf8(JObject(map["request_id" := JString(id), "ok" := JBool(true), "data" := data])) <==> AllUtf8(data)
  {
    IdIsUtf8(id);
    hide IsUtf8;
    var root := map["request_id" := JString(id), "ok" := JBool(true), "data" := data];
    assert root["data"] == data;
    forall k | k in root && k != "data"
      ensures AllUtf8(root[k])
    {
    }
  }

  // A response as it is after QString has read its strings.
  ghost function ReadByQt(r: HelloResponse, lossy: ByteString -> ByteString): HelloResponse {
    r.(serverVersion := QtText(r.serverVersion, lossy), capabilities := KeptSet(r.capabilities, lossy))
  }

  // What was sent is UTF-8, and what is read is within the limits.
  ghost predicate ReadInBounds(r: HelloResponse, lossy: ByteString -> ByteString) {
    && IsUtf8(r.serverVersion) && TextWithin(QtText(r.serverVersion, lossy), MAX_VERSION_BYTES)
    && 0 <= r.serverTime < TWO_53
    && |r.capabilities| <= MAX_CAPABILITY_COUNT
    && forall c | c in r.capabilities :: IsUtf8(c) && TextWithin(QtText(c, lossy), MAX_CAPABILITY_BYTES)
  }

  ghost predicate ResponseUnmarked(r: HelloResponse) {
    !(MARK <= r.serverVersion) && NoMarkIn(r.capabilities)
  }

  // The data object as QJsonDocument delivers it.
  ghost function DeliveredData(r: HelloResponse, lossy: ByteString -> ByteString): map<string, Json> {
    ResponseData(r)[
      "server_version" := JString(QtText(r.serverVersion, lossy))][
      "capabilities" := JArray(QtStrings(InOrder(r.capabilities), lossy))]
  }

  lemma DeliveredStrings(ss: seq<ByteString>, lossy: ByteString -> ByteString)
    ensures QtJson(JArray(Strings(ss)), lossy) == JArray(QtStrings(ss, lossy))
  {
    hide QtText;
    assert forall i | 0 <= i < |ss| :: QtJson(Strings(ss)[i], lossy) == JString(QtText(ss[i], lossy));
    assert QtJson(JArray(Strings(ss)), lossy).items == QtStrings(ss, lossy);
  }

  lemma DeliveredDataIs(r: HelloResponse, lossy: ByteString -> ByteString)
    ensures QtJson(JObject(ResponseData(r)), lossy) == JObject(DeliveredData(r, lossy))
  {
    DeliveredStrings(InOrder(r.capabilities), lossy);
    hide QtText, InOrder, Strings, QtStrings;
    var (a, b) := (QtJson(JObject(ResponseData(r)), lossy).fields, DeliveredData(r, lossy));
    assert a.Keys == b.Keys;
    forall k | k in b
      ensures a[k] == b[k]
    {
      assert a[k] == QtJson(ResponseData(r)[k], lossy);
    }
  }

  lemma DeliveredRootIs(id: UuidId, r: HelloResponse, lossy: ByteString -> ByteString)
    ensures QtJson(ResponseJson(id, r), lossy) ==
            JObject(map["request_id" := JString(id), "ok" := JBool(true), "data" := JObject(DeliveredData(r, lossy))])
  {
    IdIsPlain(id);
    DeliveredDataIs(r, lossy);
    hide IsUtf8, ResponseData, DeliveredData;
    var a := QtJson(ResponseJson(id, r), lossy).fields;
    var b := map["request_id" := JString(id), "ok" := JBool(true), "data" := JObject(DeliveredData(r, lossy))];
    assert a.Keys == b.Keys;
    forall k | k in b
      ensures a[k] == b[k]
    {
      assert a[k] == QtJson(ResponseJson(id, r).fields[k], lossy);
    }
  }

  lemma ResponseDataReadsBack(r: HelloResponse, lossy: ByteString -> ByteString)
    ensures var o := DeliveredData(r, lossy);
            && (IsResponseData(o) <==>
                  && TextWithin(QtText(r.serverVersion, lossy), MAX_VERSION_BYTES)
                  && 0 <= r.serverTime < TWO_53
                  && |r.capabilities| <= MAX_CAPABILITY_COUNT
                  && forall c | c in r.capabilities :: TextWithin(QtText(c, lossy), MAX_CAPABILITY_BYTES))
            && (IsResponseData(o) ==> ResponseFields(o) == ReadByQt(r, lossy))
  {
    hide ToDouble, InOrder, Strings, StringsOf, QtText, QtStrings, KeptSet;
    var o := DeliveredData(r, lossy);
    QtStringsHoldTheSet(r.capabilities, lossy);
    QtStringsReadBack(r.capabilities, lossy);
    IntegerReadsBack(o, "server_time", r.serverTime, TWO_53 - 1);
    IntegerReadsBack(o, "max_json", r.maxJson, 0xFFFF_FFFF);
    IntegerReadsBack(o, "max_text", r.maxText, 0xFFFF_FFFF);
    IntegerReadsBack(o, "heartbeat_idle", r.heartbeatIdle, 0xFFFF_FFFF);
    IntegerReadsBack(o, "timeout", r.timeout, 0xFFFF_FFFF);
    hide HasWhole, WholeOf, IsUtf8;
  }

  // What the client makes of any response the server encodes: it accepts exactly when there is an id
  // and the response as read is within the limits, and then it has the id and that response.
  lemma ResponseAcceptance(id: UuidId, r: HelloResponse, lossy: ByteString -> ByteString, size: nat, prior: UuidId)
    requires ReadInBounds(r, lossy) ==> size <= MAX_JSON_BYTES
    ensures var t := Deliver(Transmit(ResponseJson(id, r), size), lossy);
            && (ResponseOf(t).Ok? <==> id != [] && ReadInBounds(r, lossy))
            && (ResponseOf(t).Ok? ==> ResponseOf(t).value == ReadByQt(r, lossy) && RequestIdAfter(t, prior) == id)
  {
    ResponseJsonUtf8(id, r);
    DeliveredRootIs(id, r, lossy);
    ResponseDataReadsBack(r, lossy);
    hide IsResponseData, ResponseFields, ResponseData, DeliveredData, AllUtf8, QtJson, ResponseJson;
    hide InOrder, Strings, IsUtf8, StringsOf, QtText, QtStrings, KeptSet;
  }

  lemma ReadIfUnmarked(r: HelloResponse, lossy: ByteString -> ByteString)
    requires ResponseInBounds(r) && ResponseUnmarked(r)
    ensures ReadByQt(r, lossy) == r
  {
    hide IsUtf8;
    assert forall c | c in r.capabilities :: QtText(c, lossy) == c;
  }

  lemma UnchangedResponseBounds(r: HelloResponse, lossy: ByteString -> ByteString)
    requires ReadByQt(r, lossy) == r
    ensures ReadInBounds(r, lossy) <==> ResponseInBounds(r)
  {
    assert ReadByQt(r, lossy).capabilities == r.capabilities && ReadByQt(r, lossy).serverVersion == r.serverVersion;
    UnchangedSetLimits(r.capabilities, lossy, MAX_CAPABILITY_BYTES);
    hide IsUtf8, QtText, KeptSet, TextWithin;
  }

  lemma UnchangedIffResponseUnmarked(r: HelloResponse, lossy: ByteString -> ByteString)
    requires DropsMark(lossy) && ResponseInBounds(r)
    ensures ReadByQt(r, lossy) == r <==> ResponseUnmarked(r)
  {
    KeptSetIffUnmarked(r.capabilities, lossy);
    hide IsUtf8, KeptSet, NoMarkIn;
    assert |QtText(r.serverVersion, lossy)| == |r.serverVersion| <==> !(MARK <= r.serverVersion);
  }

  // The client recovers id and response from the server's encoding exactly when there is an id, all
  // fields are within the limits, and QString keeps the strings: it does when none starts with a
  // mark, and if it drops marks, only then. An unmarked response is never taken for another one.
  lemma ResponseAgreement(id: UuidId, r: HelloResponse, lossy: ByteString -> ByteString, size: nat, prior: UuidId)
    requires ResponseInBounds(r) ==> size <= MAX_JSON_BYTES
    ensures var t := Deliver(Transmit(ResponseJson(id, r), size), lossy);
            && (ResponseOf(t) == Ok(r) <==> id != [] && ResponseInBounds(r) && ReadByQt(r, lossy) == r)
            && (ResponseOf(t) == Ok(r) ==> RequestIdAfter(t, prior) == id)
            && (ResponseUnmarked(r) && ResponseOf(t).Ok? ==> ResponseOf(t).value == r)
    ensures ResponseInBounds(r) && ResponseUnmarked(r) ==> ReadByQt(r, lossy) == r
    ensures DropsMark(lossy) && ResponseInBounds(r) && ReadByQt(r, lossy) == r ==> ResponseUnmarked(r)
  {
    hide IsUtf8, DropsMark, NoMarkIn, KeptSet;
    hide ResponseJson;
    if size <= MAX_JSON_BYTES {
      ResponseAcceptance(id, r, lossy, size, prior);
    }
    hide AllUtf8, QtJson;
    if ResponseUnmarked(r) && (ResponseInBounds(r) || ReadInBounds(r, lossy)) {
      UnmarkedBounds(r, lossy);
      ReadIfUnmarked(r, lossy);
    }
    if ReadByQt(r, lossy) == r {
      UnchangedResponseBounds(r, lossy);
    }
    if DropsMark(lossy) && ResponseInBounds(r) {
      UnchangedIffResponseUnmarked(r, lossy);
    }
    hide ReadByQt, ReadInBounds, ResponseInBounds, ResponseUnmarked;
  }

  lemma UnmarkedBounds(r: HelloResponse, lossy: ByteString -> ByteString)
    requires ResponseUnmarked(r)
    ensures ReadInBounds(r, lossy) <==> ResponseInBounds(r)
  {
    hide IsUtf8;
  }

  // So the capabilities the server negotiated by intersection arrive as that intersection, provided
  // its own set is within the limits and neither that set nor its version has a leading mark.
  // Whatever QString does to marks, what arrives is its reading of the intersection.
  lemma NegotiationArrives(id: UuidId, r: HelloResponse, own: CapabilitySet, offered: CapabilitySet,
                           lossy: ByteString -> ByteString, size: nat)
    requires id != [] && size <= MAX_JSON_BYTES
    requires ResponseInBounds(r.(capabilities := {})) && CapabilitiesInBounds(own)
    requires r.capabilities == own * offered
    ensures var t := Deliver(Transmit(ResponseJson(id, r), size), lossy);
            && (ResponseOf(t).Ok? ==> ResponseOf(t).value.capabilities == KeptSet(own * offered, lossy))
            && (!(MARK <= r.serverVersion) && NoMarkIn(own) ==>
                  ResponseOf(t).Ok? && ResponseOf(t).value.capabilities == own * offered)
  {
    SubsetIsSmaller(own * offered, own);
    ResponseAcceptance(id, r, lossy, size, []);
    ResponseAgreement(id, r, lossy, size, []);
    hide IsUtf8, Transmit, Deliver, ResponseJson, ResponseOf, ReadInBounds, KeptSet;
  }

  // A response the client accepts survives the server's encoding exactly when QString keeps it.
  lemma ResponseNormalisation(t: Text, prior: UuidId, lossy: ByteString -> ByteString, size: nat)
    requires ResponseOf(t).Ok? && AllUtf8(t.json.value) && size <= MAX_JSON_BYTES
    ensures var (id, r) := (RequestIdAfter(t, prior), ResponseOf(t).value);
            var again := Deliver(Transmit(ResponseJson(id, r), size), lossy);
            && (ResponseOf(again) == ResponseOf(t) <==> ReadByQt(r, lossy) == r)
            && (ResponseOf(again) == ResponseOf(t) ==> RequestIdAfter(again, []) == id)
            && (ResponseUnmarked(r) ==> ReadByQt(r, lossy) == r)
            && (DropsMark(lossy) && ReadByQt(r, lossy) == r ==> ResponseUnmarked(r))
  {
    AcceptedResponseInBounds(t);
    ResponseAgreement(RequestIdAfter(t, prior), ResponseOf(t).value, lossy, size, []);
    hide IsUtf8, ResponseInBounds, Transmit, Deliver, ResponseJson, ReadByQt, ReadInBounds, ResponseUnmarked, DropsMark;
  }

  // ---- Stages ----

  // A readable body whose value is neither an object nor an array.
  predicate HasScalarRoot(t: Text) {
    t.size <= MAX_JSON_BYTES && t.json.Some? && IsScalar(t.json.value)
  }

  // The two decoders report the same code for the first stages exactly when the body is no scalar.
  lemma StagesAgree(t: Text)
    ensures ServerStageFault(t) == ClientStageFault(t) <==> !HasScalarRoot(t)
    ensures HasScalarRoot(t) ==> RequestOf(t) == Err(InvalidRequest) && ResponseOf(t) == Err(InvalidJson)
  {}

  // The body 42 is an instance.
  lemma ScalarBodyTellsThemApart()
    ensures RequestOf(Text(2, Some(JInt(42)))) == Err(InvalidRequest)
    ensures ResponseOf(Text(2, Some(JInt(42)))) == Err(InvalidJson)
  {}

  // For one body on both ends, the id counts as the client's parser delivers it.
  lemma StagesOnOneBody(t: Text, lossy: ByteString -> ByteString)
    ensures ServerStageFault(t) == ClientStageFault(Deliver(t, lossy)) <==>
            && !HasScalarRoot(t)
            && (t.size <= MAX_JSON_BYTES && t.json.Some? && t.json.value.JObject? &&
                "request_id" in t.json.value.fields && t.json.value.fields["request_id"].JString? ==>
                  var id := t.json.value.fields["request_id"].s;
                  IsUuid(id) <==> IsUuid(QtText(id, lossy)))
  {
    hide IsUuid, QtText;
    if t.json.Some? && t.json.value.JObject? && "request_id" in t.json.value.fields {
      var (f, g) := (t.json.value.fields, QtJson(t.json.value, lossy).fields);
      assert g["request_id"] == QtJson(f["request_id"], lossy);
    }
  }

  // Each code, stage by stage: size, syntax, root, request id, rest. The rest fails exactly when the
  // body says no request (no response).
  lemma CodesByStage(t: Text)
    ensures var readable := t.size <= 65536 && t.json.Some?;
            var rooted := readable && t.json.value.JObject?;
            var identified := rooted && SaysSomeId(t.json.value.fields);
            && (RequestOf(t) == Err(InvalidJson) <==> t.size <= 65536 && t.json.None?)
            && (ResponseOf(t) == Err(InvalidJson) <==>
                  t.size <= 65536 && (t.json.None? || IsScalar(t.json.value)))
            && (RequestOf(t) == Err(InvalidRequestId) <==> rooted && !identified)
            && (ResponseOf(t) == Err(InvalidRequestId) <==> rooted && !identified)
            && (RequestOf(t) == Err(InvalidRequest) <==>
                  || t.size > 65536
                  || (readable && !rooted)
                  || (identified && !exists id, r :: SaysRequest(t, id, r)))
            && (ResponseOf(t) == Err(InvalidRequest) <==>
                  || t.size > 65536
                  || (readable && t.json.value.JArray?)
                  || (identified && !exists id, r :: SaysResponse(t, id, r)))
  {
    AcceptedSays(t);
    if t.json.Some? && t.json.value.JObject? {
      IdIsSaid(t.json.value.fields);
    }
    hide IsRequestRoot, IsResponseRoot, ResponseFields, HasRequestId, SaysSomeId, SaysRequest, SaysResponse, StringsOf;
  }

  // The request id is stored exactly when it has been accepted, whatever is wrong with later fields.
  lemma RequestIdEffect(t: Text, prior: UuidId)
    ensures RequestIdAfter(t, prior) == prior ||
            (IdStagePassed(t) && JString(RequestIdAfter(t, prior)) == t.json.value.fields["request_id"])
    ensures IdStagePassed(t) <==> ServerStageFault(t).None?
    ensures IdStagePassed(t) <==> ClientStageFault(t).None?
    ensures IdStagePassed(t) ==> RequestIdAfter(t, prior) != [] && RequestIdAfter(t, prior) == RequestIdAfter(t, [])
    ensures !IdStagePassed(t) ==>
              && RequestIdAfter(t, prior) == prior
              && RequestOf(t) == Err(ServerStageFault(t).value)
              && ResponseOf(t) == Err(ClientStageFault(t).value)
  {}
}
