/** The wire format of frame.hpp: header, encoder, and the one-pass meaning of a byte stream. */
module Frames {
  import opened Bits
  import opened Bytes
  import opened ProtocolRegistry
  import opened Utf8

  const MAGIC_HIGH: Byte := 0x43
  const MAGIC_LOW: Byte := 0x48
  const PROTOCOL_VERSION: Byte := 1
  const HEADER_SIZE: nat := 8

  datatype Frame = Frame(kind: Byte, body: ByteString)

  datatype FrameErrorKind =
    | DecoderFailed
    | BadMagic
    | BadVersion
    | UnknownType
    | BodyTooLarge
    | InvalidUtf8

  // ---- The encoder's side ----

  function BigEndian32(n: nat): (b: ByteString)
    requires n < 0x1_0000_0000
    ensures |b| == 4
  {
    [n / 0x100 / 0x100 / 0x100, n / 0x100 / 0x100 % 0x100, n / 0x100 % 0x100, n % 0x100]
  }

  // The value of four octets, most significant first.
  function FromBigEndian32(b: ByteString): nat
    requires |b| == 4
  {
    var (b0: nat, b1: nat, b2: nat, b3: nat) := (b[0], b[1], b[2], b[3]);
    ((b0 * 0x100 + b1) * 0x100 + b2) * 0x100 + b3
  }

  // The length as the decoder computes it: four octets shifted into place and ORed. No shift loses
  // bits, since the result stays below 2^32.
  function ShiftedLength(b: ByteString): nat
    requires |b| == 4
  {
    Or(Or(Or(Shl(b[0], 24), Shl(b[1], 16)), Shl(b[2], 8)), b[3])
  }

  lemma ShiftedLengthIsValue(b: ByteString)
    requires |b| == 4
    ensures ShiftedLength(b) == FromBigEndian32(b) < 0x1_0000_0000
  {
    hide Or, Shl, Pow2;
    var (b0: nat, b1: nat, b2: nat, b3: nat) := (b[0], b[1], b[2], b[3]);
    Powers();
    ShlIsProduct(b0, 24);
    ShlIsProduct(b1, 16);
    ShlIsProduct(b2, 8);
    OrIsSum(b0, 24, Shl(b1, 16));
    ShlIsProduct(b0 * 0x100 + b1, 16);
    OrIsSum(b0 * 0x100 + b1, 16, Shl(b2, 8));
    ShlIsProduct((b0 * 0x100 + b1) * 0x100 + b2, 8);
    OrIsSum((b0 * 0x100 + b1) * 0x100 + b2, 8, b3);
  }

  lemma BigEndianInverse(n: nat, b: ByteString)
    requires n < 0x1_0000_0000 && |b| == 4
    ensures BigEndian32(n) == b <==> FromBigEndian32(b) == n
  {
    var (b0: nat, b1: nat, b2: nat, b3: nat) := (b[0], b[1], b[2], b[3]);
    if FromBigEndian32(b) == n {
      PopOctet(b3, (b0 * 0x100 + b1) * 0x100 + b2);
      PopOctet(b2, b0 * 0x100 + b1);
      PopOctet(b1, b0);
    }
  }

  lemma PopOctet(low: nat, high: nat)
    requires low < 0x100
    ensures (high * 0x100 + low) / 0x100 == high && (high * 0x100 + low) % 0x100 == low
  {}

  function Header(kind: Byte, length: nat): (h: ByteString)
    requires length < 0x1_0000_0000
    ensures |h| == HEADER_SIZE
  {
    [MAGIC_HIGH, MAGIC_LOW, PROTOCOL_VERSION, kind] + BigEndian32(length)
  }

  // The bytes of a frame whose body length fits the 32-bit field.
  function FrameBytes(f: Frame): (b: ByteString)
    requires |f.body| < 0x1_0000_0000
    ensures |b| == HEADER_SIZE + |f.body|
  {
    Header(f.kind, |f.body|) + f.body
  }

  // The octets on the wire: "CH", version 1, type, the body's length and the body.
  lemma WireFormat(f: Frame)
    requires |f.body| < 0x1_0000_0000
    ensures var n := |f.body|;
            FrameBytes(f) ==
            [0x43, 0x48, 0x01, f.kind, n / 0x100_0000, n / 0x1_0000 % 0x100, n / 0x100 % 0x100, n % 0x100] + f.body
  {
    NestedQuotients(|f.body|);
  }

  // A hello request with an empty object as body is a frame of ten octets.
  lemma SampleFrame()
    ensures Encodable(Frame(0x04, [0x7B, 0x7D]))
    ensures FrameBytes(Frame(0x04, [0x7B, 0x7D])) == [0x43, 0x48, 0x01, 0x04, 0, 0, 0, 2, 0x7B, 0x7D]
  {
    RegistryContents(0x04);
    AsciiIsUtf8([0x7B, 0x7D]);
    WireFormat(Frame(0x04, [0x7B, 0x7D]));
  }

  // A frame that may be put on the wire: registered type, body within the type's limit, UTF-8 body.
  ghost predicate Encodable(f: Frame) {
    && FindProtocol(f.kind).Some?
    && |f.body| <= FindProtocol(f.kind).value.maxBody
    && IsUtf8(f.body)
  }

  lemma EncodableIsShort(f: Frame)
    requires Encodable(f)
    ensures |f.body| <= MAX_JSON_BODY
  {
    FindProtocolMeaning(f.kind);
  }

  ghost predicate AllEncodable(fs: seq<Frame>) {
    forall f | f in fs :: Encodable(f)
  }

  ghost function EncodeAll(fs: seq<Frame>): ByteString
    requires AllEncodable(fs)
  {
    if fs == [] then []
    else
      EncodableIsShort(fs[0]);
      FrameBytes(fs[0]) + EncodeAll(fs[1..])
  }

  // The mask FF keeps the low octet.
  lemma MaskedOctet(n: nat)
    ensures And(n, 0xFF) == n % 0x100
  {
    hide And, Pow2;
    Powers();
    AndOnes(n, 8);
  }

  lemma NestedQuotients(n: nat)
    requires n < 0x1_0000_0000
    ensures n / 0x1_0000 == n / 0x100 / 0x100 && n / 0x100_0000 == n / 0x100 / 0x100 / 0x100 < 0x100
  {}

  // The masked shifts of the encoder are the four octets.
  lemma ShiftedOctets(n: nat)
    requires n < 0x1_0000_0000
    ensures And(Shr(n, 24), 0xFF) == BigEndian32(n)[0] && And(Shr(n, 16), 0xFF) == BigEndian32(n)[1]
    ensures And(Shr(n, 8), 0xFF) == BigEndian32(n)[2] && And(n, 0xFF) == BigEndian32(n)[3]
  {
    hide And, Shr, Pow2;
    Powers();
    NestedQuotients(n);
    ShrIsQuotient(n, 24);
    ShrIsQuotient(n, 16);
    ShrIsQuotient(n, 8);
    MaskedOctet(Shr(n, 24));
    MaskedOctet(Shr(n, 16));
    MaskedOctet(Shr(n, 8));
    MaskedOctet(n);
  }

  // The eight push_back calls at the head of encodeFrame.
  method PushHeader(kind: Byte, size: nat) returns (out: ByteString)
    requires size < 0x1_0000_0000
    ensures out == Header(kind, size)
  {
    hide And, Shr;
    ShiftedOctets(size);
    var top: Byte := And(Shr(size, 24), 0xFF);
    var high: Byte := And(Shr(size, 16), 0xFF);
    var mid: Byte := And(Shr(size, 8), 0xFF);
    var low: Byte := And(size, 0xFF);
    assert [top, high, mid, low] == BigEndian32(size);
    out := [];
    out := out + [MAGIC_HIGH];
    out := out + [MAGIC_LOW];
    out := out + [PROTOCOL_VERSION];
    out := out + [kind];
    assert out == [MAGIC_HIGH, MAGIC_LOW, PROTOCOL_VERSION, kind];
    out := out + [top];
    out := out + [high];
    out := out + [mid];
    out := out + [low];
    assert out == [MAGIC_HIGH, MAGIC_LOW, PROTOCOL_VERSION, kind] + [top, high, mid, low];
  }

  // encodeFrame: refuse what is not encodable, otherwise push the header octets and the body.
  method EncodeFrame(kind: Byte, body: ByteString) returns (r: Option<ByteString>)
    ensures r.Some? <==> Encodable(Frame(kind, body))
    ensures r.Some? ==> |body| <= MAX_JSON_BODY && r.value == FrameBytes(Frame(kind, body))
  {
    var descriptor := FindProtocol(kind);
    if descriptor.None? || |body| > descriptor.value.maxBody {
      return None;
    }
    var valid := IsValidUtf8(body);
    if !valid {
      return None;
    }
    EncodableIsShort(Frame(kind, body));
    var out := PushHeader(kind, |body|);
    out := out + body;
    return Some(out);
  }

  // ---- The decoder's side ----

  datatype HeaderCheck = Accepted(kind: Byte, length: nat) | Rejected(error: FrameErrorKind)

  // The verdict on eight header octets; the first test that fails names the error.
  function CheckHeader(h: ByteString): HeaderCheck
    requires |h| == HEADER_SIZE
  {
    if h[..2] != [MAGIC_HIGH, MAGIC_LOW] then Rejected(BadMagic)
    else if h[2] != PROTOCOL_VERSION then Rejected(BadVersion)
    else
      match FindProtocol(h[3])
      case None => Rejected(UnknownType)
      case Some(d) =>
        if FromBigEndian32(h[4..]) > d.maxBody then Rejected(BodyTooLarge)
        else Accepted(d.kind, FromBigEndian32(h[4..]))
  }

  lemma HeaderParts(h: ByteString, kind: Byte, length: nat)
    requires |h| == HEADER_SIZE && length < 0x1_0000_0000
    ensures h == Header(kind, length) <==>
            && h[..2] == [MAGIC_HIGH, MAGIC_LOW]
            && h[2] == PROTOCOL_VERSION
            && h[3] == kind
            && h[4..] == BigEndian32(length)
  {
    var front: ByteString := [MAGIC_HIGH, MAGIC_LOW, PROTOCOL_VERSION, kind];
    assert h == h[..4] + h[4..];
    assert h[..4] == h[..2] + [h[2], h[3]];
    if h == Header(kind, length) {
      assert h[..4] == front && h[4..] == BigEndian32(length);
    }
  }

  // A header is accepted exactly when it is the one the encoder writes for a registered type and a
  // length within that type's limit.
  lemma AcceptedIsEncoderHeader(h: ByteString, kind: Byte, length: nat)
    requires |h| == HEADER_SIZE && length < 0x1_0000_0000
    ensures CheckHeader(h) == Accepted(kind, length) <==>
            && h == Header(kind, length)
            && FindProtocol(kind).Some?
            && length <= FindProtocol(kind).value.maxBody
  {
    FindProtocolMeaning(h[3]);
    HeaderParts(h, kind, length);
    BigEndianInverse(length, h[4..]);
  }

  // The verdict on the header the encoder would write for any type octet and any 32-bit length.
  lemma CheckOfHeader(kind: Byte, length: nat)
    requires length < 0x1_0000_0000
    ensures CheckHeader(Header(kind, length)) ==
            match FindProtocol(kind)
            case None => Rejected(UnknownType)
            case Some(d) => if length > d.maxBody then Rejected(BodyTooLarge) else Accepted(kind, length)
  {
    var h := Header(kind, length);
    FindProtocolMeaning(kind);
    HeaderParts(h, kind, length);
    BigEndianInverse(length, h[4..]);
    hide Header, BigEndian32, FromBigEndian32, FindProtocol;
  }

  lemma AcceptedIsShort(h: ByteString)
    requires |h| == HEADER_SIZE && CheckHeader(h).Accepted?
    ensures CheckHeader(h).length <= MAX_JSON_BODY
  {
    FindProtocolMeaning(h[3]);
  }

  // What the bytes at the front of a stream amount to.
  datatype Next = NeedMore | Complete(frame: Frame) | Fault(error: FrameErrorKind)

  ghost function NextFrame(s: ByteString): (r: Next)
    ensures r.Complete? ==> |s| >= HEADER_SIZE + |r.frame.body|
  {
    if |s| < HEADER_SIZE then NeedMore
    else
      match CheckHeader(s[..HEADER_SIZE])
      case Rejected(e) => Fault(e)
      case Accepted(kind, n) =>
        if |s| < HEADER_SIZE + n then NeedMore
        else
          var body := s[HEADER_SIZE..HEADER_SIZE + n];
          if IsUtf8(body) then Complete(Frame(kind, body)) else Fault(InvalidUtf8)
  }

  // The meaning of a byte stream: its complete frames, the bytes after them, and the error there.
  datatype Parse = Parse(frames: seq<Frame>, rest: ByteString, verdict: Option<FrameErrorKind>)

  ghost function ParseStream(s: ByteString): Parse
    decreases |s|
  {
    match NextFrame(s)
    case NeedMore => Parse([], s, None)
    case Fault(e) => Parse([], s, Some(e))
    case Complete(f) => Prepend([f], ParseStream(s[HEADER_SIZE + |f.body|..]))
  }

  function Prepend(fs: seq<Frame>, p: Parse): Parse {
    p.(frames := fs + p.frames)
  }
}
