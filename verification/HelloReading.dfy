/** What both directions of the hello exchange need: ids, numbers, sets and QString's reading of them. */
module HelloReading {
  import opened Bytes
  import opened Utf8
  import opened Identifiers
  import opened Capabilities
  import opened Doubles
  import opened Hello
  import opened HelloServer
  import opened HelloClient

  lemma IdIsUtf8(id: UuidId)
    ensures IsUtf8(id)
  {
    if id == [] {
      EmptyIsUtf8();
    } else {
      forall i | 0 <= i < 36
        ensures id[i] < 0x80
      {
        assert IsHyphenPosition(i) || IsLowerHex(id[i]);
      }
      AsciiIsUtf8(id);
    }
  }

  // Identifiers are ASCII, so QString keeps them.
  lemma IdIsPlain(id: UuidId)
    ensures IsPlain(id)
  {
    IdIsUtf8(id);
    if id != [] {
      assert id[0] != MARK[0] by {
        assert IsLowerHex(id[0]);
      }
    }
    hide IsUtf8;
  }

  // ---- Numbers ----

  // An integer field passes the client's test on doubles exactly when it lies in the range, and is
  // then read back exactly.
  lemma IntegerReadsBack(o: map<string, Json>, key: string, n: int, limit: int)
    requires key in o && o[key] == JInt(n) && 0 <= limit < TWO_53
    ensures HasWhole(o, key, limit as real) <==> 0 <= n <= limit
    ensures 0 <= n <= limit ==> WholeOf(o, key, limit as real) == n
  {
    if n < 0 {
      NegativeStaysNegative(n);
    } else if n >= TWO_53 {
      LargeStaysLarge(n);
    } else {
      SmallIsExact(n);
    }
    hide ToDouble;
  }

  // ---- Sizes ----

  lemma {:induction false} NoMoreStringsThanItems(items: seq<Json>)
    ensures |StringsOf(items)| <= |items|
  {
    if items == [] {
      assert StringsOf(items) == {};
    } else {
      var n := |items| - 1;
      assert items[..n + 1] == items;
      StringsOfMore(items, n);
      NoMoreStringsThanItems(items[..n]);
    }
  }

  lemma AcceptedCapabilities(o: map<string, Json>)
    requires HasCapabilities(o) && AllUtf8(o["capabilities"])
    ensures CapabilitiesInBounds(StringsOf(o["capabilities"].items))
  {
    hide IsUtf8;
    var items := o["capabilities"].items;
    NoMoreStringsThanItems(items);
    forall c | c in StringsOf(items)
      ensures TextWithin(c, MAX_CAPABILITY_BYTES) && IsUtf8(c)
    {
      var item :| item in items && TextOf(item) == c;
      assert IsCapability(item) && AllUtf8(item);
    }
  }

  lemma {:induction false} SubsetIsSmaller(a: CapabilitySet, b: CapabilitySet)
    requires a <= b
    ensures |a| <= |b|
  {
    if a == {} {
    } else {
      var c :| c in a;
      SubsetIsSmaller(a - {c}, b - {c});
    }
  }

  // ---- Sets of strings ----

  ghost function KeptSet(caps: CapabilitySet, lossy: ByteString -> ByteString): CapabilitySet {
    set c | c in caps :: QtText(c, lossy)
  }

  ghost predicate Fits(s: ByteString, limit: nat) { TextWithin(s, limit) && IsUtf8(s) }

  // The array written for a set holds its kept elements, as many as the set has elements.
  lemma QtStringsHoldTheSet(caps: CapabilitySet, lossy: ByteString -> ByteString)
    ensures var items := QtStrings(InOrder(caps), lossy);
            && |items| == |caps|
            && (forall c | c in caps :: JString(QtText(c, lossy)) in items)
            && (forall item | item in items :: exists c :: c in caps && item == JString(QtText(c, lossy)))
  {
    InOrderMeaning(caps);
    var walk := InOrder(caps);
    var items := QtStrings(walk, lossy);
    hide InOrder, QtText;
    forall c | c in caps
      ensures JString(QtText(c, lossy)) in items
    {
      assert c in walk;
      var i :| 0 <= i < |walk| && walk[i] == c;
      assert items[i] == JString(QtText(c, lossy));
    }
    forall item | item in items
      ensures exists c :: c in caps && item == JString(QtText(c, lossy))
    {
      var i :| 0 <= i < |items| && items[i] == item;
      assert walk[i] in walk;
    }
  }

  lemma QtStringsReadBack(caps: CapabilitySet, lossy: ByteString -> ByteString)
    ensures var items := QtStrings(InOrder(caps), lossy);
            && StringsOf(items) == KeptSet(caps, lossy)
            && ((forall i | 0 <= i < |items| :: IsCapability(items[i])) <==>
                forall c | c in caps :: TextWithin(QtText(c, lossy), MAX_CAPABILITY_BYTES))
            && (AllUtf8(JArray(items)) <==> forall c | c in caps :: IsUtf8(QtText(c, lossy)))
  {
    QtStringsHoldTheSet(caps, lossy);
    var items := QtStrings(InOrder(caps), lossy);
    hide IsUtf8, InOrder, QtStrings, QtText;
    forall c | c in caps
      ensures TextOf(JString(QtText(c, lossy))) == QtText(c, lossy)
      ensures AllUtf8(JString(QtText(c, lossy))) <==> IsUtf8(QtText(c, lossy))
    {
    }
    assert forall i | 0 <= i < |items| :: items[i] in items;
  }

  lemma KeptFrom(c: ByteString, caps: CapabilitySet, lossy: ByteString -> ByteString) returns (d: ByteString)
    requires c in KeptSet(caps, lossy)
    ensures d in caps && QtText(d, lossy) == c
  {
    hide QtText;
    d :| d in caps && QtText(d, lossy) == c;
  }

  lemma KeptOf(c: ByteString, caps: CapabilitySet, lossy: ByteString -> ByteString)
    requires c in caps
    ensures QtText(c, lossy) in KeptSet(caps, lossy)
  {
    hide QtText;
  }

  // In a set that QString does not change, elements and kept elements meet the same limits.
  lemma UnchangedSetLimits(caps: CapabilitySet, lossy: ByteString -> ByteString, limit: nat)
    requires KeptSet(caps, lossy) == caps
    ensures (forall c | c in caps :: TextWithin(QtText(c, lossy), limit)) <==>
            forall c | c in caps :: TextWithin(c, limit)
    ensures (forall c | c in caps :: IsUtf8(QtText(c, lossy))) <==> forall c | c in caps :: IsUtf8(c)
  {
    hide KeptSet, QtText, IsUtf8, TextWithin;
    forall c | c in caps && forall d | d in caps :: TextWithin(QtText(d, lossy), limit)
      ensures TextWithin(c, limit)
    {
      var d := KeptFrom(c, caps, lossy);
    }
    forall c | c in caps && forall d | d in caps :: TextWithin(d, limit)
      ensures TextWithin(QtText(c, lossy), limit)
    {
      KeptOf(c, caps, lossy);
    }
    forall c | c in caps && forall d | d in caps :: IsUtf8(QtText(d, lossy))
      ensures IsUtf8(c)
    {
      var d := KeptFrom(c, caps, lossy);
    }
    forall c | c in caps && forall d | d in caps :: IsUtf8(d)
      ensures IsUtf8(QtText(c, lossy))
    {
      KeptOf(c, caps, lossy);
    }
  }

  // ---- Leading marks ----

  // The conversion takes one leading byte order mark off, as QString::fromUtf8 does.
  ghost predicate DropsMark(lossy: ByteString -> ByteString) {
    forall s: ByteString :: IsUtf8(s) && MARK <= s ==> lossy(s) == s[3..]
  }

  ghost predicate NoMarkIn(caps: CapabilitySet) {
    forall c | c in caps :: !(MARK <= c)
  }

  // A set of UTF-8 strings of bounded length survives the dropping of marks exactly when no element
  // has one: a longest marked element could not come back.
  lemma KeptSetIffUnmarked(caps: CapabilitySet, lossy: ByteString -> ByteString)
    requires DropsMark(lossy) && CapabilitiesInBounds(caps)
    ensures KeptSet(caps, lossy) == caps <==> NoMarkIn(caps)
  {
    hide IsUtf8;
    if NoMarkIn(caps) {
      assert forall c | c in caps :: QtText(c, lossy) == c;
    } else if KeptSet(caps, lossy) == caps {
      var c :| c in caps && MARK <= c;
      NoLongestMarked(caps, lossy, c);
    }
  }

  lemma {:induction false} NoLongestMarked(caps: CapabilitySet, lossy: ByteString -> ByteString, m: ByteString)
    requires DropsMark(lossy) && CapabilitiesInBounds(caps) && KeptSet(caps, lossy) == caps
    requires m in caps && MARK <= m
    ensures false
    decreases MAX_CAPABILITY_BYTES - |m|
  {
    var c := KeptFrom(m, caps, lossy);
    hide IsUtf8, KeptSet;
    assert IsUtf8(c) && MARK <= c && m == c[3..];
    NoLongestMarked(caps, lossy, c);
  }
}
