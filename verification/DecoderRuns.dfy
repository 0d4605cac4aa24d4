/** Whole runs of a frame decoder: any chunking of the input, any interleaving of pops. */
module DecoderRuns {
  import opened Bytes
  import opened ProtocolRegistry
  import opened Utf8
  import opened Frames
  import opened StreamTheorems
  import opened Decoder

  datatype Call = Feed(data: ByteString) | Pop

  // The effect of one call on the history, as FeedBytes and TryPopFrame promise it.
  ghost function After(h: History, c: Call): History
    requires Sound(h)
  {
    match c
    case Feed(data) => h.(fed := h.fed + data)
    case Pop => if HasFailed(h) || Queued(h) == [] then h else h.(popped := h.popped + [Queued(h)[0]])
  }

  // Frames are handed out in the order of the stream, each once.
  ghost predicate Sound(h: History) { h.popped <= ParseStream(h.fed).frames }

  lemma AfterIsSound(h: History, c: Call)
    requires Sound(h)
    ensures Sound(After(h, c))
  {
    if c.Feed? {
      VerdictMonotone(h.fed, c.data);
    }
    hide ParseStream;
  }

  ghost function RunFrom(h: History, calls: seq<Call>): (r: History)
    requires Sound(h)
    ensures Sound(r)
    decreases |calls|
  {
    if calls == [] then h
    else
      AfterIsSound(h, calls[0]);
      RunFrom(After(h, calls[0]), calls[1..])
  }

  const FRESH: History := History([], [])

  ghost function Run(calls: seq<Call>): (r: History)
    ensures Sound(r)
  {
    RunFrom(FRESH, calls)
  }

  // All bytes fed by a run, in order.
  function BytesFed(calls: seq<Call>): ByteString {
    if calls == [] then []
    else (match calls[0] case Feed(data) => data case Pop => []) + BytesFed(calls[1..])
  }

  lemma {:induction false} RunFeedsAll(h: History, calls: seq<Call>)
    requires Sound(h)
    ensures RunFrom(h, calls).fed == h.fed + BytesFed(calls)
    ensures h.popped <= RunFrom(h, calls).popped
    decreases |calls|
  {
    hide Sound;
    if calls == [] {
      assert h.fed + [] == h.fed;
    } else {
      AfterIsSound(h, calls[0]);
      RunFeedsAll(After(h, calls[0]), calls[1..]);
      var data := match calls[0] case Feed(d) => d case Pop => [];
      assert h.fed + [] == h.fed;
      hide RunFrom;
      ConcatAssociative(h.fed, data, BytesFed(calls[1..]));
    }
  }

  lemma RunFeeds(calls: seq<Call>)
    ensures Run(calls).fed == BytesFed(calls)
  {
    hide ParseStream;
    RunFeedsAll(FRESH, calls);
    assert [] + BytesFed(calls) == BytesFed(calls);
  }

  // Encoded frames arrive whole, in order and unharmed under any chunking.
  lemma RunRoundTrip(calls: seq<Call>, fs: seq<Frame>)
    requires AllEncodable(fs) && BytesFed(calls) == EncodeAll(fs)
    ensures var h := Run(calls);
            && !HasFailed(h)
            && h.popped + Queued(h) == fs
            && ParseStream(h.fed).rest == []
  {
    RunFeeds(calls);
    StreamRoundTrip(fs);
    hide ParseStream;
  }

  lemma {:induction false} RunFromConcat(h: History, one: seq<Call>, two: seq<Call>)
    requires Sound(h)
    ensures RunFrom(h, one + two) == RunFrom(RunFrom(h, one), two)
    decreases |one|
  {
    hide Sound;
    if one == [] {
      assert one + two == two;
    } else {
      AfterIsSound(h, one[0]);
      assert (one + two)[1..] == one[1..] + two;
      RunFromConcat(After(h, one[0]), one[1..], two);
    }
  }

  // A failure is latched: no later call hands out a frame or changes the error.
  lemma {:induction false} FailureIsLatched(h: History, calls: seq<Call>)
    requires Sound(h) && HasFailed(h)
    ensures var r := RunFrom(h, calls);
            && r.popped == h.popped
            && ParseStream(r.fed).verdict == ParseStream(h.fed).verdict
            && ParseStream(r.fed).frames == ParseStream(h.fed).frames
    decreases |calls|
  {
    hide ParseStream;
    if calls == [] {
    } else {
      AfterIsSound(h, calls[0]);
      if calls[0].Feed? {
        VerdictMonotone(h.fed, calls[0].data);
      }
      FailureIsLatched(After(h, calls[0]), calls[1..]);
    }
  }

  function Pops(n: nat): seq<Call> { seq(n, _ => Pop) }

  // While the decoder has not failed, popping delivers every queued frame.
  lemma {:induction false} PopsDrain(h: History)
    requires Sound(h) && !HasFailed(h)
    ensures var r := RunFrom(h, Pops(|Queued(h)|));
            r.fed == h.fed && r.popped == ParseStream(h.fed).frames && Queued(r) == []
    decreases |Queued(h)|
  {
    hide ParseStream;
    var calls := Pops(|Queued(h)|);
    if Queued(h) == [] {
    } else {
      var next := After(h, Pop);
      AfterIsSound(h, Pop);
      assert calls[1..] == Pops(|Queued(next)|);
      PopsDrain(next);
    }
  }

  lemma RunLast(calls: seq<Call>, c: Call)
    ensures Run(calls + [c]) == After(Run(calls), c)
  {
    assert Sound(FRESH);
    hide Sound, After, ParseStream;
    RunFromConcat(FRESH, calls, [c]);
    AfterIsSound(Run(calls), c);
    assert [c][1..] == [];
  }

  // What is handed out, unlike what is decoded, does depend on the chunks. A frame that arrives in
  // the same chunk as a fault behind it is lost ...
  lemma LostBehindAFault(f: Frame, bad: ByteString)
    requires Encodable(f) && |f.body| < 0x1_0000_0000 && NextFrame(bad).Fault?
    ensures Run([Feed(FrameBytes(f) + bad), Pop]).popped == []
  {
    hide Encodable, FrameBytes, NextFrame;
    var first := Feed(FrameBytes(f) + bad);
    ParseFirst(f, bad);
    FaultIsVerdict(bad);
    hide ParseStream;
    FirstFeed(first.data);
    hide Run, After;
    assert [first] + [Pop] == [first, Pop];
    RunLast([first], Pop);
    FirstPop(Run([first]));
  }

  lemma FirstFeed(data: ByteString)
    ensures Run([Feed(data)]) == History(data, [])
  {
    hide ParseStream;
    RunLast([], Feed(data));
    assert Run([]) == FRESH;
    assert [] + [Feed(data)] == [Feed(data)] && [] + data == data;
  }

  lemma FirstPop(h: History)
    requires Sound(h) && h.popped == []
    ensures HasFailed(h) ==> After(h, Pop) == h
    ensures !HasFailed(h) && |ParseStream(h.fed).frames| == 1 ==>
              After(h, Pop) == History(h.fed, ParseStream(h.fed).frames)
  {
    hide ParseStream;
  }

  lemma FaultIsVerdict(bad: ByteString)
    requires NextFrame(bad).Fault?
    ensures ParseStream(bad).verdict.Some?
  {}

  // ... but is delivered when it is popped before the fault arrives.
  lemma DeliveredBeforeAFault(f: Frame, bad: ByteString)
    requires Encodable(f) && |f.body| < 0x1_0000_0000
    ensures Run([Feed(FrameBytes(f)), Pop, Feed(bad)]).popped == [f]
  {
    hide Encodable, FrameBytes, NextFrame;
    var good := FrameBytes(f);
    ParseFirst(f, []);
    NothingParsed();
    hide ParseStream;
    assert good + [] == good;
    FirstFeed(good);
    hide Run;
    assert [Feed(good)] + [Pop] == [Feed(good), Pop];
    assert [Feed(good), Pop] + [Feed(bad)] == [Feed(good), Pop, Feed(bad)];
    RunLast([Feed(good)], Pop);
    FirstPop(History(good, []));
    RunLast([Feed(good), Pop], Feed(bad));
  }

  lemma NothingParsed()
    ensures ParseStream([]) == Parse([], [], None)
  {}

  lemma SameBytes(good: ByteString, bad: ByteString)
    ensures BytesFed([Feed(good + bad), Pop]) == good + bad == BytesFed([Feed(good), Pop, Feed(bad)])
  {
    BytesFedCons(Feed(good + bad), [Pop]);
    BytesFedCons(Feed(good), [Pop, Feed(bad)]);
    BytesFedCons(Pop, [Feed(bad)]);
    BytesFedCons(Feed(bad), []);
    BytesFedCons(Pop, []);
    hide BytesFed;
    assert [Feed(good + bad)] + [Pop] == [Feed(good + bad), Pop];
    assert [Feed(good)] + [Pop, Feed(bad)] == [Feed(good), Pop, Feed(bad)];
    assert [Pop] + [Feed(bad)] == [Pop, Feed(bad)] && [Feed(bad)] + [] == [Feed(bad)] && [Pop] + [] == [Pop];
  }

  lemma BytesFedCons(c: Call, calls: seq<Call>)
    ensures BytesFed([c] + calls) == (match c case Feed(data) => data case Pop => []) + BytesFed(calls)
    ensures BytesFed([]) == []
  {
    assert ([c] + calls)[1..] == calls;
  }

  lemma ZerosAreAFault(zeros: ByteString)
    requires |zeros| == HEADER_SIZE && zeros[0] == 0
    ensures NextFrame(zeros).Fault?
  {
    assert zeros[..HEADER_SIZE] == zeros && zeros[..2][0] == 0;
  }

  // A heartbeat with eight zero octets behind it: the same bytes, different frames handed out.
  lemma DeliveryDependsOnChunking()
    ensures exists one, two :: BytesFed(one) == BytesFed(two) && Run(one).popped != Run(two).popped
  {
    var heartbeat := Frame(0x02, []);
    var zeros: ByteString := [0, 0, 0, 0, 0, 0, 0, 0];
    EmptyIsUtf8();
    HeartbeatIsRegistered();
    ZerosAreAFault(zeros);
    hide FindProtocol, NextFrame, FrameBytes;
    LostBehindAFault(heartbeat, zeros);
    DeliveredBeforeAFault(heartbeat, zeros);
    SameBytes(FrameBytes(heartbeat), zeros);
    hide Run, BytesFed;
    var one := [Feed(FrameBytes(heartbeat) + zeros), Pop];
    var two := [Feed(FrameBytes(heartbeat)), Pop, Feed(zeros)];
    assert BytesFed(one) == BytesFed(two) && Run(one).popped != Run(two).popped;
  }

  // A run that pops can add nothing to: nothing is queued, or the decoder refuses.
  ghost predicate Drained(calls: seq<Call>) { HasFailed(Run(calls)) || Queued(Run(calls)) == [] }

  // Two drained runs over these bytes hand out the same frames.
  ghost predicate DeliveryFixed(s: ByteString) {
    forall one, two | BytesFed(one) == s && BytesFed(two) == s && Drained(one) && Drained(two) ::
      Run(one).popped == Run(two).popped
  }

  // The exact condition on the bytes: what drained runs hand out is a function of the stream if and
  // only if the stream has no error or no frame before it.
  lemma DeliveryIsFunctionOfBytes(s: ByteString)
    ensures DeliveryFixed(s) <==> ParseStream(s).verdict.None? || ParseStream(s).frames == []
  {
    hide ParseStream, Run;
    forall calls | BytesFed(calls) == s && Drained(calls)
      ensures ParseStream(s).verdict.None? ==> Run(calls).popped == ParseStream(s).frames
      ensures ParseStream(s).frames == [] ==> Run(calls).popped == []
    {
      RunFeeds(calls);
    }
    if ParseStream(s).verdict.Some? && ParseStream(s).frames != [] {
      var one, two := [Feed(s)], PopBeforeFault(s);
      SingleFeed(s);
      PoppedBeforeFault(s);
      assert BytesFed(one) == s && BytesFed(two) == s && Drained(one) && Drained(two);
      assert Run(one).popped != Run(two).popped;
    }
  }

  // Under the same condition, and only then, every drained run hands out all frames of the stream.
  lemma DeliveryIsComplete(s: ByteString)
    ensures (forall calls | BytesFed(calls) == s && Drained(calls) :: Run(calls).popped == ParseStream(s).frames) <==>
            ParseStream(s).verdict.None? || ParseStream(s).frames == []
  {
    hide ParseStream, Run;
    forall calls | BytesFed(calls) == s && Drained(calls)
      ensures ParseStream(s).verdict.None? ==> Run(calls).popped == ParseStream(s).frames
      ensures ParseStream(s).frames == [] ==> Run(calls).popped == []
    {
      RunFeeds(calls);
    }
    SingleFeed(s);
    assert BytesFed([Feed(s)]) == s && (ParseStream(s).verdict.Some? ==> Drained([Feed(s)]));
  }

  lemma SingleFeed(s: ByteString)
    ensures BytesFed([Feed(s)]) == s && Run([Feed(s)]) == History(s, [])
  {
    hide ParseStream, Run;
    BytesFedCons(Feed(s), []);
    FirstFeed(s);
    assert [Feed(s)] + [] == [Feed(s)];
  }

  // The run that feeds the encodings of the frames, pops them all, and then feeds what is left.
  ghost function PopBeforeFault(s: ByteString): seq<Call> {
    var p := ParseStream(s);
    Conservation(s);
    [Feed(EncodeAll(p.frames))] + Pops(|p.frames|) + [Feed(p.rest)]
  }

  lemma PoppedBeforeFault(s: ByteString)
    ensures BytesFed(PopBeforeFault(s)) == s && Run(PopBeforeFault(s)) == History(s, ParseStream(s).frames)
  {
    var p := ParseStream(s);
    Conservation(s);
    var front := EncodeAll(p.frames);
    StreamRoundTrip(p.frames);
    hide ParseStream, EncodeAll, AllEncodable;
    var calls := [Feed(front)] + Pops(|p.frames|);
    SingleFeed(front);
    RunFromConcat(FRESH, [Feed(front)], Pops(|p.frames|));
    PopsDrain(History(front, []));
    RunLast(calls, Feed(p.rest));
    hide RunFrom, Run;
    assert PopBeforeFault(s) == calls + [Feed(p.rest)];
    RunFeeds(PopBeforeFault(s));
  }

  // Whatever is called from now on, some frame decoded so far is never handed out.
  ghost predicate LosesFrames(h: History)
    requires Sound(h)
  {
    forall calls :: !(ParseStream(h.fed).frames <= RunFrom(h, calls).popped)
  }

  // The condition for one call, on what the caller can look at before it: feeding data to a decoder
  // that has not failed loses frames if and only if the bytes in hand turn out faulty while a frame
  // is queued or completed by them.
  lemma FeedLosesFrames(h: History, data: ByteString)
    requires Sound(h) && !HasFailed(h)
    ensures var p := ParseStream(ParseStream(h.fed).rest + data);
            && Sound(After(h, Feed(data)))
            && (LosesFrames(After(h, Feed(data))) <==> p.verdict.Some? && Queued(h) + p.frames != [])
  {
    ParseAppend(h.fed, data);
    hide ParseStream;
    var p := ParseStream(ParseStream(h.fed).rest + data);
    var next := After(h, Feed(data));
    AfterIsSound(h, Feed(data));
    assert ParseStream(next.fed).frames == ParseStream(h.fed).frames + p.frames;
    assert Queued(next) == Queued(h) + p.frames;
    if HasFailed(next) {
      forall calls
        ensures RunFrom(next, calls).popped == h.popped
      {
        FailureIsLatched(next, calls);
      }
      assert RunFrom(next, []) == next;
    } else {
      PopsDrain(next);
    }
  }

  // With everything handed out before, the bytes in hand alone decide.
  lemma DrainedFeedLosesFrames(h: History, data: ByteString)
    requires Sound(h) && !HasFailed(h) && Queued(h) == []
    ensures var p := ParseStream(ParseStream(h.fed).rest + data);
            && Sound(After(h, Feed(data)))
            && (LosesFrames(After(h, Feed(data))) <==> p.verdict.Some? && p.frames != [])
  {
    FeedLosesFrames(h, data);
    hide ParseStream, LosesFrames, After;
    var p := ParseStream(ParseStream(h.fed).rest + data);
    assert [] + p.frames == p.frames;
  }

  // ---- Real decoders ----

  // A decoder after some calls: the frames its pops returned, and the fields it ends with.
  datatype Ending = Ending(
    popped: seq<Frame>,
    queued: seq<Frame>,
    failure: Option<FrameErrorKind>,
    buffered: ByteString,
    pendingHeader: bool,
    frameType: Byte,
    bodyLength: nat)

  // The calls made on a real decoder. While it has not failed, it keeps less than one frame's bytes.
  method Replay(calls: seq<Call>) returns (end: Ending)
    ensures end.popped == Run(calls).popped
    ensures end.popped + end.queued == ParseStream(BytesFed(calls)).frames
    ensures end.failure == ParseStream(BytesFed(calls)).verdict
    ensures end.failure.None? ==>
              && end.buffered == ParseStream(BytesFed(calls)).rest
              && |end.buffered| <= 65543
              && (end.pendingHeader <==> |end.buffered| >= HEADER_SIZE)
              && (end.pendingHeader ==>
                    CheckHeader(end.buffered[..HEADER_SIZE]) == Accepted(end.frameType, end.bodyLength))
  {
    hide ParseStream, CheckHeader;
    var decoder := new FrameDecoder();
    var popped: seq<Frame> := [];
    ghost var h := FRESH;
    for i := 0 to |calls|
      invariant decoder.Valid() && fresh(decoder)
      invariant decoder.history == h && h.popped == popped && Sound(h)
      invariant Run(calls) == RunFrom(h, calls[i..])
    {
      ghost var rest := calls[i..];
      assert rest[1..] == calls[i + 1..];
      AfterIsSound(h, calls[i]);
      h := After(h, calls[i]);
      match calls[i]
      case Feed(data) =>
        decoder.FeedBytes(data);
      case Pop =>
        var out := decoder.TryPopFrame();
        if out.Some? {
          popped := popped + [out.value];
        }
    }
    assert calls[|calls|..] == [];
    RunFeeds(calls);
    var failure := if decoder.failed then Some(decoder.error) else None;
    if failure.None? {
      RestIsPartialFrame(BytesFed(calls));
    }
    end := Ending(popped, decoder.decodedFrames, failure, decoder.inputBuffer,
                  decoder.hasPendingHeader, decoder.frameType, decoder.bodyLength);
  }

  // Two decoders fed the same bytes in different chunks, with pops anywhere, decode the same frames
  // and agree on the error; while there is none, also on buffer and header state. The frames that one
  // has handed out are a prefix of the other's.
  method ReplayBoth(one: seq<Call>, two: seq<Call>) returns (a: Ending, b: Ending)
    requires BytesFed(one) == BytesFed(two)
    ensures a.popped + a.queued == b.popped + b.queued
    ensures a.failure == b.failure
    ensures a.popped <= b.popped || b.popped <= a.popped
    ensures a.failure.None? ==>
              && a.buffered == b.buffered
              && a.pendingHeader == b.pendingHeader
              && (a.pendingHeader ==> a.frameType == b.frameType && a.bodyLength == b.bodyLength)
  {
    hide ParseStream, CheckHeader, Run;
    a := Replay(one);
    b := Replay(two);
    SplitsAreNested(a.popped, a.queued, b.popped, b.queued);
  }

  lemma SplitsAreNested<T>(a: seq<T>, b: seq<T>, c: seq<T>, d: seq<T>)
    requires a + b == c + d
    ensures a <= c || c <= a
  {
    var n := if |a| <= |c| then |a| else |c|;
    assert a[..n] == (a + b)[..n] == (c + d)[..n] == c[..n];
  }
}
