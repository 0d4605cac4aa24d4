/** What the one-pass meaning of a byte stream promises, for all streams. */
module StreamTheorems {
  import opened Bytes
  import opened ProtocolRegistry
  import opened Utf8
  import opened Frames

  // ---- One frame ----

  ghost predicate StartsWithFrame(s: ByteString, f: Frame) {
    Encodable(f) && |f.body| < 0x1_0000_0000 && FrameBytes(f) <= s
  }

  // The decoder takes a frame off the front exactly when the encoder's bytes of an encodable frame
  // are there: nothing else is accepted, nothing the encoder writes is refused.
  lemma CompleteIffEncoded(s: ByteString, f: Frame)
    ensures NextFrame(s) == Complete(f) <==> StartsWithFrame(s, f)
  {
    hide CheckHeader, Header, FindProtocol, IsUtf8;
    if NextFrame(s) == Complete(f) {
      var h := s[..HEADER_SIZE];
      AcceptedIsShort(h);
      AcceptedIsEncoderHeader(h, f.kind, |f.body|);
      FrameLayout(s, f);
    }
    if StartsWithFrame(s, f) {
      EncodableIsShort(f);
      FrameLayout(s, f);
      AcceptedIsEncoderHeader(s[..HEADER_SIZE], f.kind, |f.body|);
    }
  }

  // A frame's bytes are at the front exactly when its header is, followed by its body.
  lemma FrameLayout(s: ByteString, f: Frame)
    requires |f.body| < 0x1_0000_0000 && HEADER_SIZE + |f.body| <= |s|
    ensures FrameBytes(f) <= s <==>
            s[..HEADER_SIZE] == Header(f.kind, |f.body|) && s[HEADER_SIZE..HEADER_SIZE + |f.body|] == f.body
  {
    hide Header;
    var n := HEADER_SIZE + |f.body|;
    assert s[..n] == s[..HEADER_SIZE] + s[HEADER_SIZE..n];
    if FrameBytes(f) <= s {
      assert FrameBytes(f) == s[..n];
      assert s[..n][..HEADER_SIZE] == Header(f.kind, |f.body|);
      assert s[..n][HEADER_SIZE..] == f.body;
    }
  }

  lemma NextFrameStable(s: ByteString, t: ByteString)
    requires !NextFrame(s).NeedMore?
    ensures NextFrame(s + t) == NextFrame(s)
  {
    assert (s + t)[..HEADER_SIZE] == s[..HEADER_SIZE];
    if CheckHeader(s[..HEADER_SIZE]).Accepted? {
      var n := CheckHeader(s[..HEADER_SIZE]).length;
      assert (s + t)[HEADER_SIZE..HEADER_SIZE + n] == s[HEADER_SIZE..HEADER_SIZE + n];
    }
  }

  // One turn of parsing, by what is at the front.
  lemma ParseTurn(s: ByteString)
    ensures |s| < HEADER_SIZE ==> ParseStream(s) == Parse([], s, None)
    ensures |s| >= HEADER_SIZE ==>
              var check := CheckHeader(s[..HEADER_SIZE]);
              if check.Rejected? then ParseStream(s) == Parse([], s, Some(check.error))
              else if |s| < HEADER_SIZE + check.length then ParseStream(s) == Parse([], s, None)
              else
                var body := s[HEADER_SIZE..HEADER_SIZE + check.length];
                if IsUtf8(body) then
                  ParseStream(s) == Prepend([Frame(check.kind, body)], ParseStream(s[HEADER_SIZE + check.length..]))
                else ParseStream(s) == Parse([], s, Some(InvalidUtf8))
  {
    hide CheckHeader, IsUtf8;
  }

  // ---- Streaming ----

  // Parsing may stop after any prefix and go on later from what was left over; an error stays.
  lemma {:induction false} ParseAppend(s: ByteString, t: ByteString)
    ensures var p := ParseStream(s);
            ParseStream(s + t) ==
            if p.verdict.None? then Prepend(p.frames, ParseStream(p.rest + t))
            else Parse(p.frames, p.rest + t, p.verdict)
    decreases |s|
  {
    hide NextFrame;
    match NextFrame(s)
    case NeedMore =>
      assert ParseStream(s) == Parse([], s, None);
      assert [] + ParseStream(s + t).frames == ParseStream(s + t).frames;
    case Fault(e) =>
      NextFrameStable(s, t);
    case Complete(f) =>
      NextFrameStable(s, t);
      var n := HEADER_SIZE + |f.body|;
      assert (s + t)[n..] == s[n..] + t;
      ParseAppend(s[n..], t);
      var p, q := ParseStream(s[n..]), ParseStream(ParseStream(s[n..]).rest + t);
      assert [f] + (p.frames + q.frames) == ([f] + p.frames) + q.frames;
  }

  // Extending a stream only appends to the frames and never changes an error already reported.
  lemma VerdictMonotone(s: ByteString, t: ByteString)
    ensures ParseStream(s).frames <= ParseStream(s + t).frames
    ensures ParseStream(s).verdict.Some? ==>
              ParseStream(s + t).verdict == ParseStream(s).verdict &&
              ParseStream(s + t).frames == ParseStream(s).frames
  {
    ParseAppend(s, t);
  }

  // Where parsing stops: no frame can be taken off, and the verdict is what the front shows.
  ghost predicate StuckAt(rest: ByteString, verdict: Option<FrameErrorKind>) {
    NextFrame(rest) == match verdict case None => NeedMore case Some(e) => Fault(e)
  }

  lemma EncodeAllCons(f: Frame, fs: seq<Frame>)
    requires Encodable(f) && AllEncodable(fs) && |f.body| < 0x1_0000_0000
    ensures AllEncodable([f] + fs) && EncodeAll([f] + fs) == FrameBytes(f) + EncodeAll(fs)
  {
    hide Encodable, FrameBytes;
    assert ([f] + fs)[1..] == fs;
  }

  lemma FrontIsFrame(s: ByteString, f: Frame)
    requires NextFrame(s) == Complete(f)
    ensures Encodable(f) && |f.body| < 0x1_0000_0000
    ensures s == FrameBytes(f) + s[HEADER_SIZE + |f.body|..]
  {
    CompleteIffEncoded(s, f);
    hide NextFrame, Encodable, Header;
  }

  lemma ConcatAssociative<T>(a: seq<T>, b: seq<T>, c: seq<T>)
    ensures a + (b + c) == (a + b) + c
  {}

  // Nothing is lost, duplicated or accepted in a form the encoder would not produce.
  lemma {:induction false} Conservation(s: ByteString)
    ensures var p := ParseStream(s);
            && AllEncodable(p.frames)
            && s == EncodeAll(p.frames) + p.rest
            && StuckAt(p.rest, p.verdict)
    decreases |s|
  {
    hide NextFrame, Encodable, FrameBytes;
    if NextFrame(s).Complete? {
      var f := NextFrame(s).frame;
      FrontIsFrame(s, f);
      var tail := s[HEADER_SIZE + |f.body|..];
      Conservation(tail);
      var p := ParseStream(tail);
      EncodeAllCons(f, p.frames);
      assert ParseStream(s) == Prepend([f], p);
      hide ParseStream, EncodeAll, AllEncodable;
      ConcatAssociative(FrameBytes(f), EncodeAll(p.frames), p.rest);
    } else {
      assert ParseStream(s).frames == [];
      assert s == [] + s;
    }
  }

  lemma ParseFirst(f: Frame, t: ByteString)
    requires Encodable(f) && |f.body| < 0x1_0000_0000
    ensures ParseStream(FrameBytes(f) + t) == Prepend([f], ParseStream(t))
  {
    hide NextFrame, Encodable, Header;
    var s := FrameBytes(f) + t;
    CompleteIffEncoded(s, f);
    assert s[HEADER_SIZE + |f.body|..] == t;
  }

  lemma {:induction false} ParseOfEncoding(fs: seq<Frame>, t: ByteString)
    requires AllEncodable(fs)
    ensures ParseStream(EncodeAll(fs) + t) == Prepend(fs, ParseStream(t))
  {
    hide Encodable, FrameBytes, NextFrame;
    if fs == [] {
      assert [] + t == t;
      assert [] + ParseStream(t).frames == ParseStream(t).frames;
    } else {
      var f, tail := fs[0], EncodeAll(fs[1..]) + t;
      EncodableIsShort(f);
      ParseFirst(f, tail);
      ParseOfEncoding(fs[1..], t);
      assert EncodeAll(fs) == FrameBytes(f) + EncodeAll(fs[1..]);
      hide ParseStream, EncodeAll, AllEncodable;
      ConcatAssociative(FrameBytes(f), EncodeAll(fs[1..]), t);
      ConcatAssociative([f], fs[1..], ParseStream(t).frames);
      assert fs == [f] + fs[1..];
    }
  }

  // The one-pass parser computes the only reading of a stream: encodable frames, then a remainder
  // from which no further frame can be taken.
  lemma ParseIsTheReading(s: ByteString, fs: seq<Frame>, rest: ByteString, verdict: Option<FrameErrorKind>)
    ensures ParseStream(s) == Parse(fs, rest, verdict) <==>
            AllEncodable(fs) && s == EncodeAll(fs) + rest && StuckAt(rest, verdict)
  {
    Conservation(s);
    if AllEncodable(fs) && s == EncodeAll(fs) + rest && StuckAt(rest, verdict) {
      ParseOfEncoding(fs, rest);
      assert fs + [] == fs;
    }
  }

  // Encoded streams come back whole, so distinct frame lists have distinct encodings.
  lemma StreamRoundTrip(fs: seq<Frame>)
    requires AllEncodable(fs)
    ensures ParseStream(EncodeAll(fs)) == Parse(fs, [], None)
  {
    assert EncodeAll(fs) + [] == EncodeAll(fs);
    ParseOfEncoding(fs, []);
    assert fs + [] == fs;
  }

  lemma EncodingInjective(fs: seq<Frame>, gs: seq<Frame>)
    requires AllEncodable(fs) && AllEncodable(gs) && EncodeAll(fs) == EncodeAll(gs)
    ensures fs == gs
  {
    StreamRoundTrip(fs);
    StreamRoundTrip(gs);
  }

  // ---- Acceptance symmetry ----

  // Why the encoder would refuse a frame, in the order in which the decoder looks.
  ghost function Refusal(f: Frame): Option<FrameErrorKind> {
    match FindProtocol(f.kind)
    case None => Some(UnknownType)
    case Some(d) =>
      if |f.body| > d.maxBody then Some(BodyTooLarge)
      else if !IsUtf8(f.body) then Some(InvalidUtf8)
      else None
  }

  lemma RefusedByDecoder(f: Frame)
    requires |f.body| < 0x1_0000_0000 && !Encodable(f)
    ensures Refusal(f).Some? && NextFrame(FrameBytes(f)) == Fault(Refusal(f).value)
  {
    CheckOfHeader(f.kind, |f.body|);
    hide CheckHeader, Header, FindProtocol;
    var s := FrameBytes(f);
    assert s[..HEADER_SIZE] == Header(f.kind, |f.body|);
    assert s[HEADER_SIZE..HEADER_SIZE + |f.body|] == f.body;
  }

  // A hand-built header and body are accepted exactly when the encoder accepts type and body;
  // otherwise they yield no frame and the decoder names the encoder's reason.
  lemma AcceptanceSymmetry(f: Frame)
    requires |f.body| < 0x1_0000_0000
    ensures Encodable(f) <==> Refusal(f).None?
    ensures ParseStream(FrameBytes(f)) ==
            if Encodable(f) then Parse([f], [], None) else Parse([], FrameBytes(f), Refusal(f))
  {
    var s := FrameBytes(f);
    if Encodable(f) {
      hide Encodable, NextFrame;
      assert s + [] == s;
      ParseFirst(f, []);
    } else {
      hide ParseStream, FrameBytes;
      RefusedByDecoder(f);
      hide NextFrame, Refusal;
    }
  }

  // ---- Earliest failure ----

  // The number of octets of rest that are needed to see its fault: the header when the header is
  // rejected, header and body otherwise.
  ghost function FaultSize(rest: ByteString): nat
    requires NextFrame(rest).Fault?
  {
    match CheckHeader(rest[..HEADER_SIZE])
    case Rejected(_) => HEADER_SIZE
    case Accepted(_, n) => HEADER_SIZE + n
  }

  lemma FaultAppearsAt(rest: ByteString, j: nat)
    requires NextFrame(rest).Fault? && j <= |rest|
    ensures FaultSize(rest) <= |rest|
    ensures NextFrame(rest[..j]) == if j < FaultSize(rest) then NeedMore else NextFrame(rest)
  {
    if j >= HEADER_SIZE {
      assert rest[..j][..HEADER_SIZE] == rest[..HEADER_SIZE];
      if j >= FaultSize(rest) {
        assert rest[..j][HEADER_SIZE..FaultSize(rest)] == rest[HEADER_SIZE..FaultSize(rest)];
      }
    }
  }

  // A failing stream fails at one definite octet: the last header octet of the offending frame when
  // the header is at fault, the last body octet when the body is. Before it there is no error.
  lemma EarliestFailure(s: ByteString, j: nat)
    requires ParseStream(s).verdict.Some? && j <= |s|
    ensures var p := ParseStream(s);
            && NextFrame(p.rest).Fault?
            && ParseStream(s[..j]).verdict ==
               if j < |s| - |p.rest| + FaultSize(p.rest) then None else p.verdict
  {
    hide NextFrame, Encodable, FaultSize;
    var p := ParseStream(s);
    Conservation(s);
    var front := EncodeAll(p.frames);
    if j < |front| {
      StreamRoundTrip(p.frames);
      assert s[..j] + front[j..] == front;
      VerdictMonotone(s[..j], front[j..]);
    } else {
      var x := p.rest[..j - |front|];
      assert s[..j] == front + x;
      ParseOfEncoding(p.frames, x);
      FaultAppearsAt(p.rest, |x|);
    }
  }

  // What is wrong with the front of a stream, one condition per error kind: the tests come in the
  // order magic, version, type, length, and only then the body.
  ghost predicate IsWrong(s: ByteString, e: FrameErrorKind) {
    |s| >= HEADER_SIZE &&
    match e
    case BadMagic => !MagicOk(s)
    case BadVersion => MagicOk(s) && s[2] != PROTOCOL_VERSION
    case UnknownType => VersionOk(s) && FindProtocol(s[3]).None?
    case BodyTooLarge => VersionOk(s) && FindProtocol(s[3]).Some? && !LengthOk(s)
    case InvalidUtf8 =>
      && VersionOk(s) && FindProtocol(s[3]).Some? && LengthOk(s)
      && HEADER_SIZE + BodyLength(s) <= |s| && !IsUtf8(s[HEADER_SIZE..HEADER_SIZE + BodyLength(s)])
    case DecoderFailed => false
  }

  predicate MagicOk(s: ByteString)
    requires |s| >= HEADER_SIZE
  {
    s[0] == MAGIC_HIGH && s[1] == MAGIC_LOW
  }

  predicate VersionOk(s: ByteString)
    requires |s| >= HEADER_SIZE
  {
    MagicOk(s) && s[2] == PROTOCOL_VERSION
  }

  function BodyLength(s: ByteString): nat
    requires |s| >= HEADER_SIZE
  {
    FromBigEndian32(s[4..HEADER_SIZE])
  }

  predicate LengthOk(s: ByteString)
    requires |s| >= HEADER_SIZE && FindProtocol(s[3]).Some?
  {
    BodyLength(s) <= FindProtocol(s[3]).value.maxBody
  }

  lemma FaultKind(s: ByteString, e: FrameErrorKind)
    ensures NextFrame(s) == Fault(e) <==> IsWrong(s, e)
  {
    hide FromBigEndian32, FindProtocol, IsUtf8;
    if |s| >= HEADER_SIZE {
      var h := s[..HEADER_SIZE];
      assert h[4..] == s[4..HEADER_SIZE];
      assert h[..2] == [s[0], s[1]];
    }
  }

  // ---- Memory ----

  // Without an error, what is left over is less than one frame: a partial header, or an accepted
  // header whose body is incomplete. So a decoder never keeps more than 65543 octets.
  lemma RestIsPartialFrame(s: ByteString)
    requires ParseStream(s).verdict.None?
    ensures var rest := ParseStream(s).rest;
            && (|rest| >= HEADER_SIZE ==>
                  && CheckHeader(rest[..HEADER_SIZE]).Accepted?
                  && |rest| < HEADER_SIZE + CheckHeader(rest[..HEADER_SIZE]).length)
            && |rest| <= 65543
  {
    Conservation(s);
    var rest := ParseStream(s).rest;
    if |rest| >= HEADER_SIZE {
      AcceptedIsShort(rest[..HEADER_SIZE]);
    }
  }
}
